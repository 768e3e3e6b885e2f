/**
 What a template means, token by token, and exactly when `Render` computes it.
 */
module TemplateMeaning {
  import opened Strings
  import opened Template

  // ----- documents and their meaning -----

  /** A literal character or a placeholder. */
  datatype Token = Char(c: char) | Hole(key: string)

  predicate Braceless(s: string) { '{' !in s && '}' !in s }

  predicate NulFree(s: string) { NUL !in s }

  predicate WritableToken(t: Token) {
    match t case Char(c) => c != NUL case Hole(k) => Braceless(k) && NulFree(k)
  }

  /** What a template author writes: no NUL, and keys without braces. */
  predicate Writable(doc: seq<Token>) {
    forall i | 0 <= i < |doc| :: WritableToken(doc[i])
  }

  predicate Bindings(vars: map<string, string>) {
    forall k <- vars :: Braceless(k) && NulFree(k) && NulFree(vars[k])
  }

  function PrintToken(t: Token): string {
    match t
    case Char(c) => if c == '{' then "{{" else if c == '}' then "}}" else [c]
    case Hole(k) => "{" + k + "}"
  }

  /** The template text of a document. */
  function Print(doc: seq<Token>): string {
    if doc == [] then "" else PrintToken(doc[0]) + Print(doc[1..])
  }

  /** An output character, remembering whether it is a brace that was written doubled. */
  datatype Mark = Plain(c: char) | Esc(c: char)

  function Plains(s: string): (ms: seq<Mark>)
    ensures |ms| == |s| && forall i | 0 <= i < |s| :: ms[i] == Plain(s[i])
  {
    seq(|s|, i requires 0 <= i < |s| => Plain(s[i]))
  }

  function TokenMarks(t: Token, vars: map<string, string>): seq<Mark> {
    match t
    case Char(c) => [if c == '{' || c == '}' then Esc(c) else Plain(c)]
    case Hole(k) => Plains(if k in vars then vars[k] else "{" + k + "}")
  }

  function Marks(doc: seq<Token>, vars: map<string, string>): seq<Mark> {
    if doc == [] then [] else TokenMarks(doc[0], vars) + Marks(doc[1..], vars)
  }

  /** The rendered document: literals as they are, placeholders replaced by their values. */
  function Meaning(doc: seq<Token>, vars: map<string, string>): string {
    if doc == [] then ""
    else (match doc[0] case Char(c) => [c] case Hole(k) => if k in vars then vars[k] else "{" + k + "}")
         + Meaning(doc[1..], vars)
  }

  // ----- the three ways a document can go wrong -----

  /** A placeholder directly followed by a literal `}`: printed as `}}}`, which pairs leftmost. */
  predicate TripleBrace(doc: seq<Token>) {
    |doc| > 1 && ((doc[0].Hole? && doc[1] == Char('}')) || TripleBrace(doc[1..]))
  }

  /** Position of the first unescaped `c`, or the length. */
  function IndexOfPlain(ms: seq<Mark>, c: char): (i: nat)
    ensures i <= |ms|
    ensures Plain(c) in ms <==> i < |ms|
    ensures i < |ms| ==> ms[i] == Plain(c)
    ensures Plain(c) !in ms[..i]
  {
    if ms == [] || ms[0] == Plain(c) then 0 else 1 + IndexOfPlain(ms[1..], c)
  }

  /** Unescaped `{ ... }` spans left in the output: unbound placeholders, or braces from values. */
  function Spans(ms: seq<Mark>): seq<seq<Mark>>
    decreases |ms|
  {
    if ms == [] then []
    else if ms[0] == Plain('{') && Plain('}') in ms then
      var end := IndexOfPlain(ms, '}');
      (if end > 1 then [ms[1..end]] else []) + Spans(ms[end + 1..])
    else Spans(ms[1..])
  }

  /** The unescaped word `word`, then an escaped brace. */
  predicate WordThenEsc(ms: seq<Mark>, word: string) {
    ms != [] && if word == "" then ms[0].Esc? else ms[0] == Plain(word[0]) && WordThenEsc(ms[1..], word[1..])
  }

  /** `}OPEN` followed by a brace, both braces written doubled: the markers share a NUL. */
  predicate SharedNulAt(ms: seq<Mark>) {
    ms != [] && ms[0] == Esc('}') && WordThenEsc(ms[1..], "OPEN")
  }

  predicate SharedNul(ms: seq<Mark>) {
    ms != [] && (SharedNulAt(ms) || SharedNul(ms[1..]))
  }

  predicate Clean(doc: seq<Token>, vars: map<string, string>) {
    !TripleBrace(doc) && Spans(Marks(doc, vars)) == [] && !SharedNul(Marks(doc, vars))
  }

  // ----- pass 1: doubled opening braces -----

  function Text1(doc: seq<Token>): string {
    if doc == [] then ""
    else (if doc[0] == Char('{') then OPEN_MARK else PrintToken(doc[0])) + Text1(doc[1..])
  }

  lemma Pass1Hole(key: string, rest: string)
    requires Braceless(key)
    ensures ReplaceAll("{" + key + "}" + rest, "{{", OPEN_MARK) == "{" + key + "}" + ReplaceAll(rest, "{{", OPEN_MARK)
  {
    var block := key + "}";
    var s := "{" + key + "}" + rest;
    assert s[1..] == block + rest;
    assert s[1] == block[0];
    assert !("{{" <= s) by { if key != "" { assert key[0] in key; } }
    ReplaceAllSkip(block, rest, "{{", OPEN_MARK);
    assert "{" + block == "{" + key + "}";
  }

  lemma {:induction false} Pass1(doc: seq<Token>)
    requires Writable(doc)
    ensures ReplaceAll(Print(doc), "{{", OPEN_MARK) == Text1(doc)
  {
    if doc != [] {
      assert WritableToken(doc[0]);
      Pass1(doc[1..]);
      match doc[0]
      case Hole(k) => Pass1Hole(k, Print(doc[1..]));
      case Char(c) =>
        if c == '{' {
          ReplaceAllHit(Print(doc[1..]), "{{", OPEN_MARK);
        } else {
          ReplaceAllSkip(PrintToken(doc[0]), Print(doc[1..]), "{{", OPEN_MARK);
        }
    }
  }

  // ----- pass 2: doubled closing braces pair leftmost -----

  /** What pass 2 leaves: a placeholder eats the first brace of a literal `}` run after it. */
  datatype Piece = Literal(m: Mark) | Whole(key: string) | Broken(key: string, closes: nat)

  function CloseRun(doc: seq<Token>): (n: nat)
    ensures n <= |doc| && (n < |doc| ==> doc[n] != Char('}'))
    ensures forall i | 0 <= i < n :: doc[i] == Char('}')
    ensures doc != [] && doc[0] == Char('}') ==> n > 0
  {
    if doc == [] || doc[0] != Char('}') then 0 else 1 + CloseRun(doc[1..])
  }

  function Pieces(doc: seq<Token>): seq<Piece>
    decreases |doc|
  {
    if doc == [] then []
    else match doc[0]
      case Char(c) => [Literal(if c == '{' || c == '}' then Esc(c) else Plain(c))] + Pieces(doc[1..])
      case Hole(k) =>
        var n := CloseRun(doc[1..]);
        if n == 0 then [Whole(k)] + Pieces(doc[1..])
        else [Broken(k, n)] + Pieces(doc[1 + n..])
  }

  function MarkText(m: Mark): string {
    match m
    case Plain(c) => [c]
    case Esc(c) => if c == '{' then OPEN_MARK else CLOSE_MARK
  }

  function Repeat(s: string, n: nat): string {
    if n == 0 then "" else s + Repeat(s, n - 1)
  }

  function PieceText(p: Piece): string {
    match p
    case Literal(m) => MarkText(m)
    case Whole(k) => "{" + k + "}"
    case Broken(k, n) => "{" + k + Repeat(CLOSE_MARK, n) + "}"
  }

  function Text2(ps: seq<Piece>): string {
    if ps == [] then "" else PieceText(ps[0]) + Text2(ps[1..])
  }

  lemma CloseRunStep(doc: seq<Token>)
    requires doc != [] && doc[0] == Char('}')
    ensures Text1(doc) == "}}" + Text1(doc[1..])
    ensures CloseRun(doc) == 1 + CloseRun(doc[1..])
  {
  }

  lemma {:induction false} CloseRunPrinted(doc: seq<Token>)
    ensures Text1(doc) == Repeat("}}", CloseRun(doc)) + Text1(doc[CloseRun(doc)..])
  {
    hide Text1;
    var n := CloseRun(doc);
    if n > 0 {
      var rest := doc[1..];
      CloseRunStep(doc);
      CloseRunPrinted(rest);
      assert rest[n - 1..] == doc[n..];
    } else {
      assert doc[0..] == doc;
    }
  }

  lemma {:induction false} Pass2Run(n: nat, rest: string)
    requires rest == "" || rest[0] != '}'
    ensures ReplaceAll("}" + Repeat("}}", n) + rest, "}}", CLOSE_MARK)
         == Repeat(CLOSE_MARK, n) + "}" + ReplaceAll(rest, "}}", CLOSE_MARK)
  {
    var s := "}" + Repeat("}}", n) + rest;
    if n == 0 {
      assert s[1..] == rest && !("}}" <= s) by { if rest != "" { assert s[1] == rest[0]; } }
    } else {
      var s' := "}" + Repeat("}}", n - 1) + rest;
      assert s == "}}" + s' by { assert "}" + "}}" == "}}" + "}"; }
      ReplaceAllHit(s', "}}", CLOSE_MARK);
      Pass2Run(n - 1, rest);
    }
  }

  lemma Regroup(a: string, b: string, c: string, d: string)
    ensures a + b + (c + d) == a + (b + c + d) == a + b + c + d
  {
  }

  lemma Pass2Hole(key: string, n: nat, rest: string)
    requires Braceless(key) && (rest == "" || rest[0] != '}')
    ensures ReplaceAll("{" + key + "}" + (Repeat("}}", n) + rest), "}}", CLOSE_MARK)
         == "{" + key + Repeat(CLOSE_MARK, n) + "}" + ReplaceAll(rest, "}}", CLOSE_MARK)
  {
    var head, run, closes := "{" + key, Repeat("}}", n), Repeat(CLOSE_MARK, n);
    Regroup(head, "}", run, rest);
    ReplaceAllSkip(head, "}" + run + rest, "}}", CLOSE_MARK);
    Pass2Run(n, rest);
    Regroup(head, closes, "}", ReplaceAll(rest, "}}", CLOSE_MARK));
  }

  lemma {:induction false} Pass2(doc: seq<Token>)
    requires Writable(doc)
    ensures ReplaceAll(Text1(doc), "}}", CLOSE_MARK) == Text2(Pieces(doc))
    decreases |doc|
  {
    if doc != [] {
      assert WritableToken(doc[0]);
      match doc[0]
      case Hole(k) => Pass2AtHole(doc, k);
      case Char(c) =>
        Pass2(doc[1..]);
        if c == '}' {
          ReplaceAllHit(Text1(doc[1..]), "}}", CLOSE_MARK);
        } else {
          ReplaceAllSkip(if c == '{' then OPEN_MARK else [c], Text1(doc[1..]), "}}", CLOSE_MARK);
        }
        assert Pieces(doc)[1..] == Pieces(doc[1..]);
    }
  }

  lemma {:induction false} Pass2AtHole(doc: seq<Token>, k: string)
    requires Writable(doc) && doc != [] && doc[0] == Hole(k)
    ensures ReplaceAll(Text1(doc), "}}", CLOSE_MARK) == Text2(Pieces(doc))
    decreases |doc|, 0
  {
    assert WritableToken(doc[0]);
    var n := CloseRun(doc[1..]);
    var after := doc[1 + n..];
    assert doc[1..][n..] == after;
    CloseRunPrinted(doc[1..]);
    Text1Head(after);
    Pass2Hole(k, n, Text1(after));
    Pass2(after);
    var p := if n == 0 then Whole(k) else Broken(k, n);
    assert doc[1..][0..] == doc[1..];
    assert Pieces(doc) == [p] + Pieces(after);
    assert ([p] + Pieces(after))[1..] == Pieces(after);
    assert PieceText(p) == "{" + k + Repeat(CLOSE_MARK, n) + "}";
  }

  lemma Text1Head(doc: seq<Token>)
    requires Writable(doc) && (doc == [] || doc[0] != Char('}'))
    ensures Text1(doc) == "" || Text1(doc)[0] != '}'
  {
  }

  // ----- pass 3: one sweep substitutes the bound placeholders -----

  function EscCloses(n: nat): seq<Mark> {
    if n == 0 then [] else [Esc('}')] + EscCloses(n - 1)
  }

  function PieceMarks(p: Piece, vars: map<string, string>): seq<Mark> {
    match p
    case Literal(m) => [m]
    case Whole(k) => Plains(if k in vars then vars[k] else "{" + k + "}")
    case Broken(k, n) => [Plain('{')] + (Plains(k) + EscCloses(n)) + [Plain('}')]
  }

  function PiecesMarks(ps: seq<Piece>, vars: map<string, string>): seq<Mark> {
    if ps == [] then [] else PieceMarks(ps[0], vars) + PiecesMarks(ps[1..], vars)
  }

  function Flat(ms: seq<Mark>): string {
    if ms == [] then "" else MarkText(ms[0]) + Flat(ms[1..])
  }

  lemma {:induction false} FlatConcat(a: seq<Mark>, b: seq<Mark>)
    ensures Flat(a + b) == Flat(a) + Flat(b)
  {
    if a == [] {
      assert a + b == b;
    } else {
      assert (a + b)[1..] == a[1..] + b;
      FlatConcat(a[1..], b);
    }
  }

  lemma {:induction false} FlatPlains(s: string)
    ensures Flat(Plains(s)) == s
  {
    if s != "" {
      assert Plains(s)[1..] == Plains(s[1..]);
      FlatPlains(s[1..]);
    }
  }

  lemma {:induction false} FlatEscCloses(n: nat)
    ensures Flat(EscCloses(n)) == Repeat(CLOSE_MARK, n)
  {
    if n > 0 {
      FlatEscCloses(n - 1);
      assert EscCloses(n)[1..] == EscCloses(n - 1);
    }
  }

  predicate OpenRules(rules: seq<Rule>) {
    forall r <- rules :: r.pat != "" && r.pat[0] == '{'
  }

  /** `rules` can stand for the bindings `vars`. */
  ghost predicate Usable(rules: seq<Rule>, vars: map<string, string>) {
    Bindings(vars) && RulesOf(rules, vars) && OpenRules(rules)
  }

  lemma NoRule(s: string, rules: seq<Rule>)
    requires OpenRules(rules) && s != "" && s[0] != '{'
    ensures FirstRule(s, rules) == |rules|
  {
    forall j | 0 <= j < |rules| ensures !(rules[j].pat <= s) {
      assert rules[j] in rules;
    }
  }

  lemma ReplacerMatch(s: string, rules: seq<Rule>)
    requires OpenRules(rules) && s != ""
    ensures var i := FirstRule(s, rules);
      Replacer(s, rules) ==
        if i < |rules| && |rules[i].pat| <= |s| then rules[i].repl + Replacer(s[|rules[i].pat|..], rules)
        else [s[0]] + Replacer(s[1..], rules)
  {
  }

  lemma ReplacerStep(s: string, rules: seq<Rule>)
    requires OpenRules(rules) && s != "" && s[0] != '{'
    ensures Replacer(s, rules) == [s[0]] + Replacer(s[1..], rules)
  {
    NoRule(s, rules);
  }

  lemma {:induction false} ReplacerSkip(block: string, rest: string, rules: seq<Rule>)
    requires '{' !in block && OpenRules(rules)
    ensures Replacer(block + rest, rules) == block + Replacer(rest, rules)
  {
    hide Replacer, OpenRules;
    if block == "" {
      assert block + rest == rest;
    } else {
      var s, tail := block + rest, block[1..];
      assert s[0] == block[0] && block[0] in block;
      assert s[1..] == tail + rest;
      ReplacerStep(s, rules);
      ReplacerSkip(tail, rest, rules);
      assert block == [block[0]] + tail;
    }
  }

  lemma FirstClose(body: string, rest: string)
    requires '}' !in body
    ensures IndexOf(body + "}" + rest, '}') == |body|
  {
    var s := body + "}" + rest;
    assert s[|body|] == '}' && s[..|body|] == body;
    var i := IndexOf(s, '}');
    IndexOfIsFirst(s, '}');
    forall j | 0 <= j < i ensures s[j] != '}' {
      assert s[..i][j] == s[j];
    }
  }

  lemma SameKey(a: string, b: string, rest: string)
    requires '}' !in a && '}' !in b && "{" + a + "}" <= "{" + b + "}" + rest
    ensures a == b
  {
    var p, s := "{" + a + "}", "{" + b + "}" + rest;
    var after := s[|p|..];
    assert s == p + after;
    assert s[1..] == a + "}" + after == b + "}" + rest;
    FirstClose(a, after);
    FirstClose(b, rest);
    assert a == s[1..][..|a|] && b == s[1..][..|b|];
  }

  lemma FirstRuleFinds(s: string, rules: seq<Rule>, r: Rule)
    requires r in rules && r.pat <= s
    ensures FirstRule(s, rules) < |rules|
  {
    var j :| 0 <= j < |rules| && rules[j] == r;
  }

  lemma RuleKey(rules: seq<Rule>, i: nat, vars: map<string, string>) returns (k: string)
    requires Bindings(vars) && RulesOf(rules, vars) && i < |rules|
    ensures k in vars && rules[i] == Rule("{" + k + "}", vars[k]) && '}' !in k
  {
    assert rules[i] in rules;
    k :| k in vars && rules[i] == Rule("{" + k + "}", vars[k]);
  }

  /** The rule that matches at a placeholder is the placeholder's own. */
  lemma MatchIsOwn(body: string, rest: string, rules: seq<Rule>, vars: map<string, string>)
    requires '}' !in body && Bindings(vars) && RulesOf(rules, vars)
    requires FirstRule("{" + body + "}" + rest, rules) < |rules|
    ensures body in vars && rules[FirstRule("{" + body + "}" + rest, rules)] == Rule("{" + body + "}", vars[body])
  {
    hide RulesOf, Bindings, FirstRule;
    var i := FirstRule("{" + body + "}" + rest, rules);
    var k := RuleKey(rules, i, vars);
    SameKey(k, body, rest);
  }

  lemma OwnRuleListed(body: string, rest: string, rules: seq<Rule>, vars: map<string, string>)
    requires body in vars && RulesOf(rules, vars)
    ensures FirstRule("{" + body + "}" + rest, rules) < |rules|
  {
    hide FirstRule;
    var hole := "{" + body + "}";
    assert Rule(hole, vars[body]) in rules;
    FirstRuleFinds(hole + rest, rules, Rule(hole, vars[body]));
  }

  /** At a placeholder, the only rule that can match is the placeholder's own. */
  lemma RuleAtHole(body: string, rest: string, rules: seq<Rule>, vars: map<string, string>)
    requires '}' !in body && Usable(rules, vars)
    ensures var i := FirstRule("{" + body + "}" + rest, rules);
      if body in vars then i < |rules| && rules[i] == Rule("{" + body + "}", vars[body]) else i == |rules|
  {
    hide RulesOf, Bindings, OpenRules, FirstRule;
    if body in vars { OwnRuleListed(body, rest, rules, vars); }
    if FirstRule("{" + body + "}" + rest, rules) < |rules| { MatchIsOwn(body, rest, rules, vars); }
  }

  /** Where a placeholder stands, the sweep substitutes its binding, or keeps it. */
  lemma ReplacerHole(body: string, rest: string, rules: seq<Rule>, vars: map<string, string>)
    requires Braceless(body) && Usable(rules, vars)
    ensures Replacer("{" + body + "}" + rest, rules)
         == (if body in vars then vars[body] else "{" + body + "}") + Replacer(rest, rules)
  {
    hide Replacer, OpenRules, RulesOf, Bindings;
    var s := "{" + body + "}" + rest;
    RuleAtHole(body, rest, rules, vars);
    ReplacerMatch(s, rules);
    if body in vars {
      assert s[|body| + 2..] == rest;
    } else {
      var tail := body + "}";
      assert s[1..] == tail + rest;
      ReplacerSkip(tail, rest, rules);
      assert ['{'] + (tail + Replacer(rest, rules)) == "{" + body + "}" + Replacer(rest, rules);
    }
  }

  predicate GoodMark(m: Mark) {
    match m case Plain(c) => c != NUL case Esc(c) => c == '{' || c == '}'
  }

  predicate GoodMarks(ms: seq<Mark>) { forall i | 0 <= i < |ms| :: GoodMark(ms[i]) }

  predicate GoodPiece(p: Piece) {
    match p
    case Literal(m) => GoodMark(m) && (m.Plain? ==> m.c != '{' && m.c != '}')
    case Whole(k) => Braceless(k) && NulFree(k)
    case Broken(k, n) => Braceless(k) && NulFree(k) && n > 0
  }

  predicate GoodPieces(ps: seq<Piece>) { forall i | 0 <= i < |ps| :: GoodPiece(ps[i]) }

  lemma {:induction false} PiecesGood(doc: seq<Token>)
    requires Writable(doc)
    ensures GoodPieces(Pieces(doc))
    decreases |doc|
  {
    if doc != [] {
      assert WritableToken(doc[0]);
      PiecesGood(doc[1..]);
      if doc[0].Hole? {
        PiecesGood(doc[1 + CloseRun(doc[1..])..]);
      }
    }
  }

  lemma {:induction false} RepeatCloseText(n: nat)
    ensures Braceless(Repeat(CLOSE_MARK, n)) && (n > 0 ==> !NulFree(Repeat(CLOSE_MARK, n)))
  {
    if n > 0 {
      RepeatCloseText(n - 1);
      assert CLOSE_MARK[0] in Repeat(CLOSE_MARK, n);
    }
  }

  lemma FlatBroken(k: string, n: nat)
    ensures Flat([Plain('{')] + (Plains(k) + EscCloses(n)) + [Plain('}')]) == "{" + (k + Repeat(CLOSE_MARK, n)) + "}"
  {
    var inner := Plains(k) + EscCloses(n);
    FlatConcat(Plains(k), EscCloses(n));
    FlatPlains(k);
    FlatEscCloses(n);
    FlatConcat([Plain('{')] + inner, [Plain('}')]);
    FlatConcat([Plain('{')], inner);
    assert Plains("{") == [Plain('{')] && Plains("}") == [Plain('}')];
    FlatPlains("{");
    FlatPlains("}");
  }

  lemma Pass3Piece(p: Piece, rest: string, rules: seq<Rule>, vars: map<string, string>)
    requires GoodPiece(p) && Usable(rules, vars)
    ensures Replacer(PieceText(p) + rest, rules) == Flat(PieceMarks(p, vars)) + Replacer(rest, rules)
  {
    match p
    case Literal(m) =>
      assert [m][1..] == [] && Flat([m]) == MarkText(m);
      ReplacerSkip(MarkText(m), rest, rules);
    case Whole(k) =>
      FlatPlains(if k in vars then vars[k] else "{" + k + "}");
      ReplacerHole(k, rest, rules, vars);
    case Broken(k, n) =>
      var closes := Repeat(CLOSE_MARK, n);
      RepeatCloseText(n);
      var body := k + closes;
      assert NUL in body;
      assert "{" + body + "}" == "{" + k + closes + "}";
      ReplacerHole(body, rest, rules, vars);
      FlatBroken(k, n);
  }

  lemma {:induction false} Pass3(ps: seq<Piece>, rules: seq<Rule>, vars: map<string, string>)
    requires GoodPieces(ps) && Usable(rules, vars)
    ensures Replacer(Text2(ps), rules) == Flat(PiecesMarks(ps, vars))
  {
    if ps != [] {
      Pass3Piece(ps[0], Text2(ps[1..]), rules, vars);
      Pass3(ps[1..], rules, vars);
      FlatConcat(PieceMarks(ps[0], vars), PiecesMarks(ps[1..], vars));
    }
  }

  // ----- pass 4: placeholders left over -----

  /** A span's key as the error message shows it. */
  function SpanTexts(spans: seq<seq<Mark>>): seq<string> {
    if spans == [] then [] else [Flat(spans[0])] + SpanTexts(spans[1..])
  }

  lemma {:induction false} MissingSkip(block: string, rest: string)
    requires '{' !in block
    ensures MissingKeys(block + rest) == MissingKeys(rest)
  {
    if block == "" {
      assert block + rest == rest;
    } else {
      var s := block + rest;
      assert s[0] == block[0] && s[0] in block;
      assert s[1..] == block[1..] + rest;
      MissingSkip(block[1..], rest);
    }
  }

  lemma {:induction false} FlatNoClose(ms: seq<Mark>)
    requires GoodMarks(ms) && Plain('}') !in ms
    ensures '}' !in Flat(ms) && |Flat(ms)| >= |ms|
  {
    if ms != [] {
      assert GoodMark(ms[0]) && ms[0] in ms;
      FlatNoClose(ms[1..]);
    }
  }

  lemma FlatAround(pre: seq<Mark>, c: char, post: seq<Mark>)
    ensures Flat(pre + [Plain(c)] + post) == Flat(pre) + [c] + Flat(post)
  {
    assert [Plain(c)] == Plains([c]);
    FlatPlains([c]);
    FlatConcat(pre + [Plain(c)], post);
    FlatConcat(pre, [Plain(c)]);
  }

  lemma FlatClose(ms: seq<Mark>)
    requires GoodMarks(ms)
    ensures '}' in Flat(ms) <==> Plain('}') in ms
    ensures Plain('}') in ms ==>
      var end := IndexOfPlain(ms, '}');
      Flat(ms) == Flat(ms[..end]) + "}" + Flat(ms[end + 1..])
  {
    hide Flat, IndexOfPlain;
    var end := IndexOfPlain(ms, '}');
    if end < |ms| {
      SplitAt(ms, end);
      FlatAround(ms[..end], '}', ms[end + 1..]);
      CloseStands(Flat(ms[..end]), Flat(ms[end + 1..]));
    } else {
      FlatNoClose(ms);
    }
  }

  lemma SplitAt(ms: seq<Mark>, end: nat)
    requires end < |ms|
    ensures ms == ms[..end] + [ms[end]] + ms[end + 1..]
  {
  }

  lemma CloseStands(a: string, b: string)
    ensures '}' in a + ['}'] + b && a + ['}'] + b == a + "}" + b
  {
    assert (a + ['}'] + b)[|a|] == '}';
  }

  lemma MissingSpan(inner: string, after: string)
    requires '}' !in inner
    ensures MissingKeys("{" + inner + "}" + after) == (if inner != "" then [inner] else []) + MissingKeys(after)
  {
    var s := "{" + inner + "}" + after;
    assert s == ("{" + inner) + "}" + after;
    FirstClose("{" + inner, after);
    assert s[|inner| + 1] == '}';
    assert s[1..|inner| + 1] == inner && s[|inner| + 2..] == after;
  }

  lemma {:induction false} Pass4(ms: seq<Mark>)
    requires GoodMarks(ms)
    ensures MissingKeys(Flat(ms)) == SpanTexts(Spans(ms))
    decreases |ms|
  {
    if ms != [] {
      assert GoodMark(ms[0]);
      var flat := Flat(ms);
      FlatClose(ms);
      if ms[0] == Plain('{') && Plain('}') in ms {
        Pass4Span(ms);
      } else if ms[0] == Plain('{') {
        assert flat[1..] == Flat(ms[1..]);
        Pass4(ms[1..]);
      } else {
        MissingSkip(MarkText(ms[0]), Flat(ms[1..]));
        Pass4(ms[1..]);
      }
    }
  }

  lemma Pass4Span(ms: seq<Mark>)
    requires GoodMarks(ms) && ms != [] && ms[0] == Plain('{') && Plain('}') in ms
    ensures MissingKeys(Flat(ms)) == SpanTexts(Spans(ms))
    decreases |ms|, 0
  {
    hide Flat, MissingKeys, MarkText, IndexOfPlain, SpanTexts;
    var end := IndexOfPlain(ms, '}');
    var inner, after := ms[1..end], ms[end + 1..];
    SpanAtFront(ms);
    FlatClose(ms);
    FlatAround([], '{', inner);
    FlatNoClose(inner);
    SpanTextsCons(inner, Spans(after));
    FlatSpan(Flat(inner), Flat(after));
    MissingSpan(Flat(inner), Flat(after));
    Pass4(after);
  }

  lemma FlatSpan(inner: string, after: string)
    ensures ("" + ['{'] + inner) + "}" + after == "{" + inner + "}" + after
  {
    assert "" + ['{'] == "{";
  }

  /** The marks up to the first plain closing brace. */
  lemma SpanAtFront(ms: seq<Mark>)
    requires GoodMarks(ms) && ms != [] && ms[0] == Plain('{') && Plain('}') in ms
    ensures var end := IndexOfPlain(ms, '}');
      && 1 <= end < |ms| && ms[..end] == [] + [Plain('{')] + ms[1..end]
      && GoodMarks(ms[1..end]) && Plain('}') !in ms[1..end] && GoodMarks(ms[end + 1..])
      && Spans(ms) == (if ms[1..end] != [] then [ms[1..end]] else []) + Spans(ms[end + 1..])
  {
    var end := IndexOfPlain(ms, '}');
    assert forall m <- ms[1..end] :: m in ms[..end];
  }

  lemma SpanTextsCons(inner: seq<Mark>, spans: seq<seq<Mark>>)
    ensures SpanTexts([inner] + spans) == [Flat(inner)] + SpanTexts(spans)
    ensures SpanTexts([] + spans) == SpanTexts(spans)
    ensures Flat([]) == ""
  {
    assert ([inner] + spans)[1..] == spans;
    assert [] + spans == spans;
  }

  // ----- passes 5 and 6: markers become braces -----

  /** The text after pass 5: opening markers restored. */
  function Flat5(ms: seq<Mark>): string {
    if ms == [] then ""
    else (if ms[0] == Esc('{') then "{" else MarkText(ms[0])) + Flat5(ms[1..])
  }

  function TextOf(ms: seq<Mark>): string {
    if ms == [] then "" else [ms[0].c] + TextOf(ms[1..])
  }

  lemma PrefixCons(c: char, a: string, s: string)
    ensures [c] + a <= s <==> s != "" && s[0] == c && a <= s[1..]
  {
    var p := [c] + a;
    if s != "" && s[0] == c {
      assert p[1..] == a;
      assert a <= s[1..] ==> p == [s[0]] + s[1..][..|a|] == s[..|p|];
      assert p <= s ==> forall i | 0 <= i < |a| :: a[i] == p[i + 1] == s[i + 1] == s[1..][i];
    }
  }

  /** The NUL after `word` is the start of a marker. */
  lemma {:induction false} WordThenNul(ms: seq<Mark>, word: string)
    requires GoodMarks(ms) && NulFree(word)
    ensures word + [NUL] <= Flat(ms) <==> WordThenEsc(ms, word)
    decreases |word|
  {
    if ms != [] {
      assert GoodMark(ms[0]);
      var flat := Flat(ms);
      if word == "" {
        assert word + [NUL] == [NUL] + "";
        PrefixCons(NUL, "", flat);
      } else {
        assert word[0] in word;
        assert word + [NUL] == [word[0]] + (word[1..] + [NUL]);
        PrefixCons(word[0], word[1..] + [NUL], flat);
        if ms[0] == Plain(word[0]) {
          assert flat[1..] == Flat(ms[1..]);
          WordThenNul(ms[1..], word[1..]);
        }
      }
    }
  }

  /** A closing marker, taken apart at its NULs. */
  lemma CloseMarkParts(text: string)
    ensures CLOSE_MARK + text == [NUL] + ("CLOSE" + ([NUL] + text))
    ensures !(OPEN_MARK <= CLOSE_MARK + text)
  {
    var s := CLOSE_MARK + text;
    assert s[1] == 'C' && OPEN_MARK[1] == 'O';
  }

  lemma NulThenClose(r: string)
    ensures [NUL] + ("CLOSE" + r) == "\U{0}CLOSE" + r
  {
  }

  lemma Pass5ToClosingNul(text: string)
    ensures ReplaceAll(CLOSE_MARK + text, OPEN_MARK, "{") == "\U{0}CLOSE" + ReplaceAll([NUL] + text, OPEN_MARK, "{")
  {
    hide ReplaceAll;
    var tail := [NUL] + text;
    CloseMarkParts(text);
    ReplaceAllMiss(NUL, "CLOSE" + tail, OPEN_MARK, "{");
    ReplaceAllSkip("CLOSE", tail, OPEN_MARK, "{");
    NulThenClose(ReplaceAll(tail, OPEN_MARK, "{"));
  }

  lemma OpensAtClosingNul(rest: seq<Mark>)
    requires GoodMarks(rest)
    ensures OPEN_MARK <= [NUL] + Flat(rest) <==> WordThenEsc(rest, "OPEN")
  {
    WordThenNul(rest, "OPEN");
    assert OPEN_MARK == [NUL] + ("OPEN" + [NUL]);
    PrefixCons(NUL, "OPEN" + [NUL], [NUL] + Flat(rest));
    assert ([NUL] + Flat(rest))[1..] == Flat(rest);
  }

  /** Pass 5 leaves a closing marker alone when its NUL is not shared. */
  lemma Pass5Kept(rest: seq<Mark>)
    requires GoodMarks(rest) && !WordThenEsc(rest, "OPEN")
    ensures ReplaceAll(CLOSE_MARK + Flat(rest), OPEN_MARK, "{") == CLOSE_MARK + ReplaceAll(Flat(rest), OPEN_MARK, "{")
  {
    Pass5ToClosingNul(Flat(rest));
    OpensAtClosingNul(rest);
    assert ([NUL] + Flat(rest))[1..] == Flat(rest);
    assert "\U{0}CLOSE" + [NUL] == CLOSE_MARK;
  }

  /** A shared NUL is taken by the wrong marker: a broken closing marker stays behind. */
  lemma Pass5Taken(rest: seq<Mark>) returns (tail: string)
    requires GoodMarks(rest) && WordThenEsc(rest, "OPEN")
    ensures ReplaceAll(CLOSE_MARK + Flat(rest), OPEN_MARK, "{") == "\U{0}CLOSE{" + tail
  {
    Pass5ToClosingNul(Flat(rest));
    OpensAtClosingNul(rest);
    var s := [NUL] + Flat(rest);
    tail := ReplaceAll(s[|OPEN_MARK|..], OPEN_MARK, "{");
    assert "\U{0}CLOSE" + "{" == "\U{0}CLOSE{";
  }

  lemma {:induction false} Pass5(ms: seq<Mark>)
    requires GoodMarks(ms) && !SharedNul(ms)
    ensures ReplaceAll(Flat(ms), OPEN_MARK, "{") == Flat5(ms)
  {
    if ms != [] {
      assert GoodMark(ms[0]);
      Pass5(ms[1..]);
      if ms[0] == Esc('{') {
        ReplaceAllHit(Flat(ms[1..]), OPEN_MARK, "{");
      } else if ms[0].Esc? {
        Pass5Kept(ms[1..]);
      } else {
        ReplaceAllSkip(MarkText(ms[0]), Flat(ms[1..]), OPEN_MARK, "{");
      }
    }
  }

  lemma {:induction false} Pass6(ms: seq<Mark>)
    requires GoodMarks(ms)
    ensures ReplaceAll(Flat5(ms), CLOSE_MARK, "}") == TextOf(ms)
  {
    if ms != [] {
      assert GoodMark(ms[0]);
      Pass6(ms[1..]);
      if ms[0] == Esc('}') {
        ReplaceAllHit(Flat5(ms[1..]), CLOSE_MARK, "}");
      } else {
        ReplaceAllSkip([ms[0].c], Flat5(ms[1..]), CLOSE_MARK, "}");
      }
    }
  }

  lemma NulStays(tail: string)
    ensures NUL in ReplaceAll("\U{0}CLOSE{" + tail, CLOSE_MARK, "}")
  {
    var s := "\U{0}CLOSE{" + tail;
    assert s[6] == '{' && CLOSE_MARK[6] == NUL;
    assert !(CLOSE_MARK <= s);
    assert ReplaceAll(s, CLOSE_MARK, "}")[0] == s[0] == NUL;
  }

  /** When a NUL is shared, a NUL survives both passes. */
  lemma {:induction false} SharedNulSurvives(ms: seq<Mark>)
    requires GoodMarks(ms) && SharedNul(ms)
    ensures NUL in ReplaceAll(ReplaceAll(Flat(ms), OPEN_MARK, "{"), CLOSE_MARK, "}")
  {
    assert GoodMark(ms[0]);
    var rest := ms[1..];
    var r := ReplaceAll(Flat(rest), OPEN_MARK, "{");
    if SharedNulAt(ms) {
      var tail := Pass5Taken(rest);
      NulStays(tail);
    } else {
      SharedNulSurvives(rest);
      if ms[0] == Esc('{') {
        ReplaceAllHit(Flat(rest), OPEN_MARK, "{");
        ReplaceAllSkip("{", r, CLOSE_MARK, "}");
      } else if ms[0].Esc? {
        Pass5Kept(rest);
        ReplaceAllHit(r, CLOSE_MARK, "}");
      } else {
        ReplaceAllSkip(MarkText(ms[0]), Flat(rest), OPEN_MARK, "{");
        ReplaceAllSkip(MarkText(ms[0]), r, CLOSE_MARK, "}");
      }
    }
  }

  // ----- from documents to pieces -----

  lemma {:induction false} PiecesOfCleanDoc(doc: seq<Token>, vars: map<string, string>)
    requires !TripleBrace(doc)
    ensures PiecesMarks(Pieces(doc), vars) == Marks(doc, vars)
    decreases |doc|
  {
    if doc != [] {
      var rest := doc[1..];
      PiecesOfCleanDoc(rest, vars);
      if doc[0].Hole? && rest != [] {
        assert doc[1] == rest[0];
      }
      assert doc[1 + 0..] == rest;
      assert Pieces(doc)[1..] == Pieces(rest);
    }
  }

  /** A triple brace leaves `{`, something without an unescaped `}`, and `}` in the output. */
  lemma {:induction false} PiecesOfTripleBrace(doc: seq<Token>, vars: map<string, string>)
    returns (pre: seq<Mark>, mid: seq<Mark>, post: seq<Mark>)
    requires Writable(doc) && TripleBrace(doc)
    ensures mid != [] && Plain('}') !in mid
    ensures PiecesMarks(Pieces(doc), vars) == pre + [Plain('{')] + mid + [Plain('}')] + post
    decreases |doc|
  {
    hide Pieces, PiecesMarks, PieceMarks;
    var rest := doc[1..];
    if doc[0].Hole? && CloseRun(rest) > 0 {
      pre, mid, post := BrokenHere(doc, vars);
    } else {
      assert doc[0].Hole? ==> rest[0] == doc[1];
      pre, mid, post := PiecesOfTripleBrace(rest, vars);
      var p := PieceHere(doc, vars);
      Nest(PieceMarks(p, vars), pre, mid, post);
      pre := PieceMarks(p, vars) + pre;
    }
  }

  lemma BrokenHere(doc: seq<Token>, vars: map<string, string>) returns (pre: seq<Mark>, mid: seq<Mark>, post: seq<Mark>)
    requires Writable(doc) && doc != [] && doc[0].Hole? && CloseRun(doc[1..]) > 0
    ensures mid != [] && Plain('}') !in mid
    ensures PiecesMarks(Pieces(doc), vars) == pre + [Plain('{')] + mid + [Plain('}')] + post
  {
    hide EscCloses, PiecesMarks, MarkText;
    assert WritableToken(doc[0]);
    var k, n := doc[0].key, CloseRun(doc[1..]);
    EscClosesKind(n);
    pre, mid, post := [], Plains(k) + EscCloses(n), PiecesMarks(Pieces(doc[1 + n..]), vars);
    PiecesMarksCons(Broken(k, n), Pieces(doc[1 + n..]), vars);
    assert [] + [Plain('{')] == [Plain('{')];
  }

  lemma PieceHere(doc: seq<Token>, vars: map<string, string>) returns (p: Piece)
    requires doc != [] && (doc[0].Hole? ==> CloseRun(doc[1..]) == 0)
    ensures PiecesMarks(Pieces(doc), vars) == PieceMarks(p, vars) + PiecesMarks(Pieces(doc[1..]), vars)
  {
    p := if doc[0].Hole? then Whole(doc[0].key) else Literal(if doc[0].c == '{' || doc[0].c == '}' then Esc(doc[0].c) else Plain(doc[0].c));
    PiecesMarksCons(p, Pieces(doc[1..]), vars);
  }

  lemma PiecesMarksCons(p: Piece, ps: seq<Piece>, vars: map<string, string>)
    ensures PiecesMarks([p] + ps, vars) == PieceMarks(p, vars) + PiecesMarks(ps, vars)
  {
    assert ([p] + ps)[1..] == ps;
  }

  lemma Nest(here: seq<Mark>, pre: seq<Mark>, mid: seq<Mark>, post: seq<Mark>)
    ensures here + (pre + [Plain('{')] + mid + [Plain('}')] + post)
         == here + pre + [Plain('{')] + mid + [Plain('}')] + post
  {
  }

  lemma {:induction false} EscClosesKind(n: nat)
    ensures |EscCloses(n)| == n && forall i | 0 <= i < n :: EscCloses(n)[i] == Esc('}')
  {
    if n > 0 { EscClosesKind(n - 1); }
  }

  lemma {:induction false} SpanFound(pre: seq<Mark>, mid: seq<Mark>, post: seq<Mark>)
    requires mid != [] && Plain('}') !in mid
    ensures Spans(pre + [Plain('{')] + mid + [Plain('}')] + post) != []
    decreases |pre|
  {
    var ms := pre + [Plain('{')] + mid + [Plain('}')] + post;
    var close := |pre| + 1 + |mid|;
    assert ms[close] == Plain('}');
    var end := IndexOfPlain(ms, '}');
    if pre == [] {
      assert forall i | 1 <= i < close :: ms[i] == mid[i - 1];
      assert ms[end] == Plain('}') && end >= close;
    } else if ms[0] == Plain('{') {
      if end == 1 {
        assert |pre| >= 2 by { assert ms[|pre|] == Plain('{'); }
        assert ms[2..] == pre[2..] + [Plain('{')] + mid + [Plain('}')] + post;
        SpanFound(pre[2..], mid, post);
      }
    } else {
      assert ms[1..] == pre[1..] + [Plain('{')] + mid + [Plain('}')] + post;
      SpanFound(pre[1..], mid, post);
    }
  }

  lemma {:induction false} PieceMarksGood(ps: seq<Piece>, vars: map<string, string>)
    requires GoodPieces(ps) && Bindings(vars)
    ensures GoodMarks(PiecesMarks(ps, vars))
  {
    if ps != [] {
      PieceMarksGood(ps[1..], vars);
      assert GoodPiece(ps[0]);
      match ps[0]
      case Literal(m) =>
      case Whole(k) => if k in vars { assert NulFree(vars[k]); }
      case Broken(k, n) =>
        EscClosesKind(n);
          assert GoodMarks(EscCloses(n));
        assert GoodMarks(PieceMarks(ps[0], vars));
    }
  }

  lemma {:induction false} TextOfConcat(a: seq<Mark>, b: seq<Mark>)
    ensures TextOf(a + b) == TextOf(a) + TextOf(b)
  {
    if a == [] {
      assert a + b == b;
    } else {
      assert (a + b)[1..] == a[1..] + b;
      TextOfConcat(a[1..], b);
    }
  }

  lemma {:induction false} TextOfPlains(s: string)
    ensures TextOf(Plains(s)) == s
  {
    if s != "" {
      assert Plains(s)[1..] == Plains(s[1..]);
      TextOfPlains(s[1..]);
    }
  }

  lemma {:induction false} MarksText(doc: seq<Token>, vars: map<string, string>)
    ensures TextOf(Marks(doc, vars)) == Meaning(doc, vars)
  {
    if doc != [] {
      MarksText(doc[1..], vars);
      TextOfConcat(TokenMarks(doc[0], vars), Marks(doc[1..], vars));
      if doc[0].Hole? {
        TextOfPlains(if doc[0].key in vars then vars[doc[0].key] else "{" + doc[0].key + "}");
      }
    }
  }

  lemma {:induction false} MeaningNulFree(ms: seq<Mark>)
    requires GoodMarks(ms)
    ensures NulFree(TextOf(ms))
  {
    if ms != [] {
      assert GoodMark(ms[0]);
      MeaningNulFree(ms[1..]);
    }
  }

  // ----- main results -----

  /** What `Render` does with any writable document, in terms of its pieces. */
  lemma RenderPieces(doc: seq<Token>, vars: map<string, string>, rules: seq<Rule>)
    requires Writable(doc) && Usable(rules, vars)
    ensures var ms := PiecesMarks(Pieces(doc), vars);
      && GoodMarks(ms)
      && Render(Print(doc), rules) ==
         if Spans(ms) != [] then Missing(Flat(Spans(ms)[0]))
         else Rendered(ReplaceAll(ReplaceAll(Flat(ms), OPEN_MARK, "{"), CLOSE_MARK, "}"))
  {
    Pass1(doc);
    Pass2(doc);
    PiecesGood(doc);
    Pass3(Pieces(doc), rules, vars);
    var ms := PiecesMarks(Pieces(doc), vars);
    PieceMarksGood(Pieces(doc), vars);
    Pass4(ms);
    assert Spans(ms) != [] ==> SpanTexts(Spans(ms))[0] == Flat(Spans(ms)[0]);
  }

  /**
   `Render` gives a document its meaning exactly when the document is clean: whatever the
   order in which the bindings are listed, and for values with any characters but NUL.
   */
  lemma RenderExactlyWhenClean(doc: seq<Token>, vars: map<string, string>, rules: seq<Rule>)
    requires Writable(doc) && Usable(rules, vars)
    ensures Render(Print(doc), rules) == Rendered(Meaning(doc, vars)) <==> Clean(doc, vars)
  {
    RenderPieces(doc, vars, rules);
    if TripleBrace(doc) {
      var pre, mid, post := PiecesOfTripleBrace(doc, vars);
      SpanFound(pre, mid, post);
    } else {
      PiecesOfCleanDoc(doc, vars);
      var ms := Marks(doc, vars);
      MarksText(doc, vars);
      if SharedNul(ms) {
        SharedNulSurvives(ms);
        MeaningNulFree(ms);
      } else {
        Pass5(ms);
        Pass6(ms);
      }
    }
  }

  lemma ListedRulesOpen(rules: seq<Rule>, vars: map<string, string>)
    requires RulesOf(rules, vars)
    ensures OpenRules(rules)
  {
  }

  /** What `RenderTemplate` promises of its result is enough: on a printed document it is the meaning iff clean. */
  lemma RenderTemplateGivesMeaning(doc: seq<Token>, vars: map<string, string>, r: Result)
    requires Writable(doc) && Bindings(vars)
    requires exists rules: seq<Rule> ::
      RulesOf(rules, vars) && (forall rule <- rules :: rule.pat != "") && r == Render(Print(doc), rules)
    ensures r == Rendered(Meaning(doc, vars)) <==> Clean(doc, vars)
  {
    hide Render, RulesOf;
    var rules: seq<Rule> :|
      RulesOf(rules, vars) && (forall rule <- rules :: rule.pat != "") && r == Render(Print(doc), rules);
    ListedRulesOpen(rules, vars);
    RenderExactlyWhenClean(doc, vars, rules);
  }

  /** The named placeholders without a binding, in order. */
  function UnboundKeys(doc: seq<Token>, vars: map<string, string>): seq<string> {
    if doc == [] then []
    else UnboundKey(doc[0], vars) + UnboundKeys(doc[1..], vars)
  }

  lemma {:induction false} SpansSkip(block: seq<Mark>, rest: seq<Mark>)
    requires Plain('{') !in block
    ensures Spans(block + rest) == Spans(rest)
    decreases |block|
  {
    if block == [] {
      assert block + rest == rest;
    } else {
      assert (block + rest)[0] == block[0] && block[0] in block;
      assert (block + rest)[1..] == block[1..] + rest;
      SpansSkip(block[1..], rest);
    }
  }

  lemma SpansAtHole(k: string, rest: seq<Mark>)
    requires Braceless(k)
    ensures Spans(Plains("{" + k + "}") + rest) == (if k != "" then [Plains(k)] else []) + Spans(rest)
  {
    var ms := Plains("{" + k + "}") + rest;
    var close := |k| + 1;
    assert ms[0] == Plain('{') && ms[close] == Plain('}');
    assert forall i | 1 <= i < close :: ms[i] == Plain(k[i - 1]);
    var end := IndexOfPlain(ms, '}');
    forall i | 0 <= i < end ensures ms[i] != Plain('}') {
      assert ms[..end][i] == ms[i];
    }
    assert forall i | 0 <= i < |k| :: k[i] in k;
    assert ms[1..end] == Plains(k) && ms[end + 1..] == rest;
  }

  function KeySpans(keys: seq<string>): seq<seq<Mark>> {
    if keys == [] then [] else [Plains(keys[0])] + KeySpans(keys[1..])
  }

  /** The keys of one token that stay unbound. */
  function UnboundKey(t: Token, vars: map<string, string>): seq<string> {
    if t.Hole? && t.key != "" && t.key !in vars then [t.key] else []
  }

  lemma SpansOfToken(t: Token, vars: map<string, string>, rest: seq<Mark>)
    requires WritableToken(t) && forall k <- vars :: Braceless(vars[k])
    ensures Spans(TokenMarks(t, vars) + rest) == KeySpans(UnboundKey(t, vars)) + Spans(rest)
  {
    if t.Hole? && t.key !in vars {
      SpansAtHole(t.key, rest);
      assert [t.key][1..] == [];
    } else {
      SpansSkip(TokenMarks(t, vars), rest);
    }
  }

  lemma {:induction false} KeySpansConcat(a: seq<string>, b: seq<string>)
    ensures KeySpans(a + b) == KeySpans(a) + KeySpans(b)
  {
    if a == [] {
      assert a + b == b;
    } else {
      assert (a + b)[1..] == a[1..] + b;
      KeySpansConcat(a[1..], b);
    }
  }

  lemma {:induction false} SpansAreUnboundKeys(doc: seq<Token>, vars: map<string, string>)
    requires Writable(doc) && forall k <- vars :: Braceless(vars[k])
    ensures Spans(Marks(doc, vars)) == KeySpans(UnboundKeys(doc, vars))
  {
    hide Spans, KeySpans, TokenMarks, UnboundKey, WritableToken;
    if doc != [] {
      assert WritableToken(doc[0]);
      SpansAreUnboundKeys(doc[1..], vars);
      SpansOfToken(doc[0], vars, Marks(doc[1..], vars));
      KeySpansConcat(UnboundKey(doc[0], vars), UnboundKeys(doc[1..], vars));
    } else {
      NoSpans();
    }
  }

  lemma NoSpans()
    ensures Spans([]) == [] && KeySpans([]) == []
  {
  }

  /**
   With brace-free values, an unbound placeholder makes `Render` fail, naming the first one;
   without one, only the two textual accidents stand between the template and its meaning.
   */
  lemma RenderNamesFirstMissing(doc: seq<Token>, vars: map<string, string>, rules: seq<Rule>)
    requires Writable(doc) && Usable(rules, vars) && !TripleBrace(doc)
    requires forall k <- vars :: Braceless(vars[k])
    ensures UnboundKeys(doc, vars) != [] ==> Render(Print(doc), rules) == Missing(UnboundKeys(doc, vars)[0])
    ensures UnboundKeys(doc, vars) == [] ==>
      (Render(Print(doc), rules) == Rendered(Meaning(doc, vars)) <==> !SharedNul(Marks(doc, vars)))
  {
    RenderPieces(doc, vars, rules);
    RenderExactlyWhenClean(doc, vars, rules);
    PiecesOfCleanDoc(doc, vars);
    SpansAreUnboundKeys(doc, vars);
    if UnboundKeys(doc, vars) != [] {
      FlatPlains(UnboundKeys(doc, vars)[0]);
    }
  }

  /** A text as a document without placeholders: its print has every brace doubled. */
  function Chars(text: string): (doc: seq<Token>)
    ensures |doc| == |text| && forall i | 0 <= i < |text| :: doc[i] == Char(text[i])
  {
    seq(|text|, i requires 0 <= i < |text| => Char(text[i]))
  }

  /** `}OPEN` and a further brace somewhere in the text. */
  predicate HoldsOpenWord(text: string) {
    text != "" && ("}OPEN{" <= text || "}OPEN}" <= text || HoldsOpenWord(text[1..]))
  }

  lemma {:induction false} WordThenEscInText(text: string, word: string)
    requires Braceless(word)
    ensures WordThenEsc(Marks(Chars(text), map[]), word) <==> word + "{" <= text || word + "}" <= text
    decreases |word|
  {
    if text != "" {
      var ms := Marks(Chars(text), map[]);
      assert Chars(text)[1..] == Chars(text[1..]);
      assert ms[1..] == Marks(Chars(text[1..]), map[]);
      if word == "" {
        assert word + "{" == "{" + "" && word + "}" == "}" + "";
        PrefixCons('{', "", text);
        PrefixCons('}', "", text);
      } else {
        assert word[0] in word;
        WordThenEscInText(text[1..], word[1..]);
        assert word + "{" == [word[0]] + (word[1..] + "{") && word + "}" == [word[0]] + (word[1..] + "}");
        PrefixCons(word[0], word[1..] + "{", text);
        PrefixCons(word[0], word[1..] + "}", text);
      }
    }
  }

  lemma {:induction false} SharedNulInText(text: string)
    ensures SharedNul(Marks(Chars(text), map[])) <==> HoldsOpenWord(text)
  {
    if text != "" {
      var ms := Marks(Chars(text), map[]);
      assert Chars(text)[1..] == Chars(text[1..]);
      assert ms[1..] == Marks(Chars(text[1..]), map[]);
      SharedNulInText(text[1..]);
      WordThenEscInText(text[1..], "OPEN");
      assert "}OPEN{" == ['}'] + ("OPEN" + "{") && "}OPEN}" == ['}'] + ("OPEN" + "}");
      PrefixCons('}', "OPEN" + "{", text);
      PrefixCons('}', "OPEN" + "}", text);
    }
  }

  lemma {:induction false} CharsMarks(text: string, vars: map<string, string>)
    ensures Marks(Chars(text), vars) == Marks(Chars(text), map[])
    ensures Meaning(Chars(text), vars) == text
    ensures !TripleBrace(Chars(text))
    ensures Spans(Marks(Chars(text), map[])) == []
  {
    if text != "" {
      assert Chars(text)[1..] == Chars(text[1..]);
      CharsMarks(text[1..], vars);
      SpansSkip(TokenMarks(Char(text[0]), map[]), Marks(Chars(text[1..]), map[]));
    }
  }

  /** Round trip: a NUL-free text with its braces doubled renders back to itself, or holds `}OPEN` and a brace. */
  lemma EscapedTextRendersBack(text: string, vars: map<string, string>, rules: seq<Rule>)
    requires NulFree(text) && Usable(rules, vars)
    ensures Render(Print(Chars(text)), rules) == Rendered(text) <==> !HoldsOpenWord(text)
  {
    CharsMarks(text, vars);
    SharedNulInText(text);
    RenderExactlyWhenClean(Chars(text), vars, rules);
  }

  /** The accident is real: the doubled form of `}OPEN{` does not render back. */
  lemma OpenWordIsMisread()
    ensures Render(Print(Chars("}OPEN{")), []) != Rendered("}OPEN{")
  {
    assert HoldsOpenWord("}OPEN{");
    EscapedTextRendersBack("}OPEN{", map[], []);
  }
}
