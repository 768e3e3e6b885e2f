/**
 `RenderTemplate` (internal/infra/template.go): five rewriting passes over the text,
 against the token-wise meaning of a template.

 A template is the printed form of a document: literal characters, with braces doubled,
 and `{key}` placeholders. `RenderExactlyWhenClean` says for which documents the passes
 compute the document's meaning.
 */
module Template {
  import opened Strings

  const NUL: char := '\U{0}'
  const OPEN_MARK := "\U{0}OPEN\U{0}"
  const CLOSE_MARK := "\U{0}CLOSE\U{0}"

  datatype Result = Rendered(text: string) | Missing(key: string)

  // ----- the code -----

  /** One replacement rule of `strings.NewReplacer`. */
  datatype Rule = Rule(pat: string, repl: string)

  /** The first rule, in argument order, whose pattern stands at the front of `s`. */
  function FirstRule(s: string, rules: seq<Rule>): (i: nat)
    ensures i <= |rules|
    ensures i < |rules| ==> rules[i].pat <= s
    ensures forall j | 0 <= j < i :: !(rules[j].pat <= s)
  {
    if rules == [] || rules[0].pat <= s then 0 else 1 + FirstRule(s, rules[1..])
  }

  /** Go's `strings.Replacer`: one sweep, at each position the first rule that matches. */
  function Replacer(s: string, rules: seq<Rule>): string
    requires forall r <- rules :: r.pat != ""
    decreases |s|
  {
    if s == "" then ""
    else
      var i := FirstRule(s, rules);
      if i < |rules| then rules[i].repl + Replacer(s[|rules[i].pat|..], rules)
      else [s[0]] + Replacer(s[1..], rules)
  }

  /** `strings.IndexByte`, with `|s|` for "absent". */
  function IndexOf(s: string, c: char): (i: nat)
    ensures i <= |s|
    ensures i < |s| ==> s[i] == c
  {
    if s == "" || s[0] == c then 0 else 1 + IndexOf(s[1..], c)
  }

  lemma {:induction false} IndexOfIsFirst(s: string, c: char)
    ensures c in s <==> IndexOf(s, c) < |s|
    ensures c !in s[..IndexOf(s, c)]
  {
    if s != "" && s[0] != c {
      IndexOfIsFirst(s[1..], c);
      var i := IndexOf(s, c);
      assert s == [s[0]] + s[1..] && s[..i] == [s[0]] + s[1..][..i - 1];
    }
  }

  /** The keys that `findMissingPlaceholders` collects. */
  function MissingKeys(s: string): seq<string>
    decreases |s|
  {
    if s == "" then []
    else if s[0] == '{' && IndexOf(s, '}') < |s| then
      var end := IndexOf(s, '}');
      (if end > 1 then [s[1..end]] else []) + MissingKeys(s[end + 1..])
    else MissingKeys(s[1..])
  }

  method FindMissingPlaceholders(s: string) returns (missing: seq<string>)
    ensures missing == MissingKeys(s)
  {
    missing := [];
    var i := 0;
    assert s[0..] == s;
    while i < |s|
      invariant 0 <= i <= |s|
      invariant missing + MissingKeys(s[i..]) == MissingKeys(s)
    {
      hide MissingKeys, IndexOf;
      if s[i] == '{' {
        var end := IndexOf(s[i..], '}');
        if end < |s[i..]| {
          ScanPair(s, i, end, missing);
          var key := s[i + 1..i + end];
          if |key| > 0 {
            missing := missing + [key];
          }
          i := i + end + 1;
          continue;
        }
      }
      ScanOther(s, i);
      i := i + 1;
    }
    NothingMissing(s, missing);
  }

  /** A turn of the scan that meets a brace pair. */
  lemma ScanPair(s: string, i: nat, end: nat, missing: seq<string>)
    requires i < |s| && s[i] == '{' && end == IndexOf(s[i..], '}') && i + end < |s|
    ensures end >= 1
    ensures |s[i + 1..i + end]| > 0 ==>
      missing + MissingKeys(s[i..]) == missing + [s[i + 1..i + end]] + MissingKeys(s[i + end + 1..])
    ensures |s[i + 1..i + end]| == 0 ==> missing + MissingKeys(s[i..]) == missing + MissingKeys(s[i + end + 1..])
  {
    hide MissingKeys, IndexOf;
    var rest := s[i..];
    assert rest[0] == '{' && rest[end] == '}';
    PairAtFront(rest, end);
    PartOfSuffix(s, i, end);
    SuffixOfSuffix(s, i, end + 1);
    KeyThenRest(missing, s[i + 1..i + end], MissingKeys(s[i + end + 1..]));
  }

  /** A turn of the scan that meets none. */
  lemma ScanOther(s: string, i: nat)
    requires i < |s| && !(s[i] == '{' && i + IndexOf(s[i..], '}') < |s|)
    ensures MissingKeys(s[i..]) == MissingKeys(s[i + 1..])
  {
    SuffixOfSuffix(s, i, 1);
  }

  lemma PairAtFront(rest: string, end: nat)
    requires rest != "" && rest[0] == '{' && end == IndexOf(rest, '}') && end < |rest|
    ensures end >= 1
    ensures end > 1 ==> MissingKeys(rest) == [rest[1..end]] + MissingKeys(rest[end + 1..])
    ensures end == 1 ==> MissingKeys(rest) == [] + MissingKeys(rest[end + 1..])
  {
  }

  lemma SuffixOfSuffix(s: string, i: nat, n: nat)
    requires i + n <= |s|
    ensures s[i..][n..] == s[i + n..]
  {
  }

  lemma PartOfSuffix(s: string, i: nat, end: nat)
    requires 1 <= end && i + end <= |s|
    ensures s[i..][1..end] == s[i + 1..i + end]
  {
  }

  lemma KeyThenRest(missing: seq<string>, key: string, rest: seq<string>)
    ensures missing + ([key] + rest) == missing + [key] + rest
    ensures missing + ([] + rest) == missing + rest
  {
  }

  lemma NothingMissing(s: string, missing: seq<string>)
    ensures missing + MissingKeys(s[|s|..]) == missing
  {
    assert s[|s|..] == "" && missing + [] == missing;
  }

  /** `rules` lists the placeholders of `vars`, each once, in some order. */
  ghost predicate RulesOf(rules: seq<Rule>, vars: map<string, string>) {
    && (forall r <- rules :: exists k :: k in vars && r == Rule("{" + k + "}", vars[k]))
    && (forall k <- vars :: Rule("{" + k + "}", vars[k]) in rules)
  }

  function Render(tmpl: string, rules: seq<Rule>): Result
    requires forall r <- rules :: r.pat != ""
  {
    var marked := ReplaceAll(ReplaceAll(tmpl, "{{", OPEN_MARK), "}}", CLOSE_MARK);
    var result := Replacer(marked, rules);
    var missing := MissingKeys(result);
    if missing != [] then Missing(missing[0])
    else Rendered(ReplaceAll(ReplaceAll(result, OPEN_MARK, "{"), CLOSE_MARK, "}"))
  }

  /** The bindings are listed in whatever order the map is iterated. */
  method RenderTemplate(tmpl: string, vars: map<string, string>) returns (r: Result)
    ensures exists rules: seq<Rule> ::
      RulesOf(rules, vars) && (forall rule <- rules :: rule.pat != "") && r == Render(tmpl, rules)
  {
    var marked := ReplaceAll(tmpl, "{{", OPEN_MARK);
    marked := ReplaceAll(marked, "}}", CLOSE_MARK);
    var pairs := [];
    var todo := vars.Keys;
    while todo != {}
      invariant todo <= vars.Keys
      invariant RulesOf(pairs, map k | k in vars && k !in todo :: vars[k])
    {
      var k :| k in todo;
      ghost var done := map j | j in vars && j !in todo :: vars[j];
      todo := todo - {k};
      ghost var done' := map j | j in vars && j !in todo :: vars[j];
      assert forall j :: j in done' <==> j in done || j == k;
      pairs := pairs + [Rule("{" + k + "}", vars[k])];
    }
    assert (map k | k in vars && k !in todo :: vars[k]) == vars;
    var result := Replacer(marked, pairs);
    var missing := FindMissingPlaceholders(result);
    if |missing| > 0 {
      r := Missing(missing[0]);
    } else {
      result := ReplaceAll(result, OPEN_MARK, "{");
      result := ReplaceAll(result, CLOSE_MARK, "}");
      r := Rendered(result);
    }
    assert r == Render(tmpl, pairs);
  }
}
