/** `Dedent`: removes the common leading whitespace of the non-blank lines. */
module Dedent {
  import opened Options
  import opened Strings

  const NEWLINE := '\n'

  predicate IsIndent(c: char) { c == ' ' || c == '\t' }

  /** The number of leading spaces and tabs. */
  function Indent(line: string): nat {
    if line != "" && IsIndent(line[0]) then 1 + Indent(line[1..]) else 0
  }

  predicate Blank(line: string) { Indent(line) == |line| }

  lemma {:induction false} IndentInLine(line: string)
    ensures Indent(line) <= |line|
    ensures forall i :: 0 <= i < Indent(line) ==> IsIndent(line[i])
    ensures Indent(line) < |line| ==> !IsIndent(line[Indent(line)])
  {
    if line != "" { IndentInLine(line[1..]); }
  }

  /** Taking `n` characters of the indentation off leaves the rest of it. */
  lemma {:induction false} IndentOfRest(line: string, n: nat)
    requires n <= Indent(line)
    ensures n <= |line| && Indent(line[n..]) == Indent(line) - n
    ensures Blank(line[n..]) <==> Blank(line)
  {
    IndentInLine(line);
    if n > 0 {
      IndentOfRest(line[1..], n - 1);
      assert line[1..][n - 1..] == line[n..];
    } else {
      assert line[0..] == line;
    }
  }

  lemma {:induction false} IndentOfPrefixed(p: string, line: string)
    requires forall i :: 0 <= i < |p| ==> IsIndent(p[i])
    ensures Indent(p + line) == |p| + Indent(line)
    ensures Blank(p + line) <==> Blank(line)
  {
    if p == "" {
      assert p + line == line;
    } else {
      assert (p + line)[1..] == p[1..] + line;
      IndentOfPrefixed(p[1..], line);
    }
  }

  /** The smallest indentation of a non-blank line, if there is one. */
  function MinIndent(lines: seq<string>): Option<nat>
    decreases |lines|
  {
    if lines == [] then None
    else
      var n := |lines| - 1;
      var before := MinIndent(lines[..n]);
      if Blank(lines[n]) then before
      else if before.None? || Indent(lines[n]) < before.value then Some(Indent(lines[n]))
      else before
  }

  lemma {:induction false} MinIndentIsMinimum(lines: seq<string>)
    ensures MinIndent(lines).None? <==> forall i :: 0 <= i < |lines| ==> Blank(lines[i])
    ensures MinIndent(lines).Some? ==>
      && (forall i :: 0 <= i < |lines| && !Blank(lines[i]) ==> MinIndent(lines).value <= Indent(lines[i]))
      && (exists i :: 0 <= i < |lines| && !Blank(lines[i]) && Indent(lines[i]) == MinIndent(lines).value)
    decreases |lines|
  {
    if lines != [] {
      var n := |lines| - 1;
      MinIndentIsMinimum(lines[..n]);
      forall i | 0 <= i < n ensures lines[..n][i] == lines[i] {}
    }
  }

  function DropIndent(line: string, m: nat): string {
    if |line| >= m then line[m..] else line
  }

  function DropEach(lines: seq<string>, m: nat): (out: seq<string>)
    ensures |out| == |lines|
  {
    seq(|lines|, i requires 0 <= i < |lines| => DropIndent(lines[i], m))
  }

  /** What the text becomes. */
  function Dedented(text: string): string {
    var lines := Split(text, NEWLINE);
    var m := MinIndent(lines);
    if m.None? || m.value == 0 then text else Join(DropEach(lines, m.value), [NEWLINE])
  }

  method Dedent(text: string) returns (result: string)
    ensures result == Dedented(text)
  {
    hide Split, Indent, Join;
    var lines := Split(text, NEWLINE);
    var minIndent := -1;
    for i := 0 to |lines|
      invariant minIndent == match MinIndent(lines[..i]) case None => -1 case Some(m) => m
    {
      assert lines[..i + 1][..i] == lines[..i];
      var indent := Indent(lines[i]);
      if indent != |lines[i]| && (minIndent == -1 || indent < minIndent) {
        minIndent := indent;
      }
    }
    assert lines[..|lines|] == lines;
    if minIndent <= 0 { return text; }
    result := "";
    ghost var dropped := DropEach(lines, minIndent);
    JoinNothing();
    for i := 0 to |lines|
      invariant result == Join(dropped[..i], [NEWLINE])
    {
      JoinGrows(dropped[..i], dropped[i]);
      assert dropped[..i + 1] == dropped[..i] + [dropped[i]];
      if i > 0 {
        result := result + "\n";
      }
      result := result + if |lines[i]| >= minIndent then lines[i][minIndent..] else lines[i];
    }
    assert dropped[..|lines|] == dropped;
  }

  lemma JoinNothing()
    ensures Join([], [NEWLINE]) == ""
  {
  }

  lemma {:induction false} JoinGrows(parts: seq<string>, last: string)
    ensures Join(parts + [last], [NEWLINE])
         == if parts == [] then last else Join(parts, [NEWLINE]) + [NEWLINE] + last
  {
    if |parts| > 0 {
      assert (parts + [last])[1..] == parts[1..] + [last];
      JoinGrows(parts[1..], last);
      if |parts| == 1 {
        assert parts[1..] + [last] == [last];
      }
    } else {
      assert parts + [last] == [last];
    }
  }

  lemma DroppedIsLineFree(lines: seq<string>, m: nat)
    requires forall i :: 0 <= i < |lines| ==> NEWLINE !in lines[i]
    ensures forall p <- DropEach(lines, m) :: NEWLINE !in p
  {
  }

  lemma LinesOfSplit(text: string)
    ensures Split(text, NEWLINE) != []
    ensures forall i :: 0 <= i < |Split(text, NEWLINE)| ==> NEWLINE !in Split(text, NEWLINE)[i]
  {
  }

  /** The lines of the result are the lines of the text, each shortened: none lost, none added. */
  lemma LinesOfDedented(text: string)
    ensures var lines := Split(text, NEWLINE); var m := MinIndent(lines);
      Split(Dedented(text), NEWLINE) == if m.None? then lines else DropEach(lines, m.value)
  {
    var lines := Split(text, NEWLINE);
    var m := MinIndent(lines);
    if m.Some? {
      if m.value == 0 {
        assert DropEach(lines, 0) == lines;
      } else {
        LinesOfSplit(text);
        DroppedIsLineFree(lines, m.value);
        SplitJoinFree(DropEach(lines, m.value), NEWLINE);
      }
    }
  }

  /** One line: a non-blank one loses `m` of its indentation, a blank one stays blank. */
  lemma DropFromLine(line: string, m: nat)
    requires !Blank(line) ==> m <= Indent(line)
    ensures Blank(DropIndent(line, m)) <==> Blank(line)
    ensures !Blank(line) ==>
      m <= |line| && DropIndent(line, m) == line[m..] && Indent(DropIndent(line, m)) == Indent(line) - m
  {
    IndentInLine(line);
    if |line| >= m { IndentOfRest(line, m); }
  }

  /**
   The result has as many lines; every non-blank line loses exactly the smallest indentation, blank
   ones stay blank, and then some non-blank line has none, if there is a non-blank line.
   */
  lemma DedentedShape(text: string)
    ensures var lines, out := Split(text, NEWLINE), Split(Dedented(text), NEWLINE); var m := MinIndent(lines);
      && |out| == |lines|
      && (forall i :: 0 <= i < |lines| ==> (Blank(out[i]) <==> Blank(lines[i])))
      && (m.Some? ==> MinIndent(out) == Some(0) && forall i :: 0 <= i < |lines| && !Blank(lines[i]) ==>
            m.value <= |lines[i]| && out[i] == lines[i][m.value..])
      && (m.None? ==> Dedented(text) == text)
  {
    hide Split, MinIndent, Indent;
    LinesOfDedented(text);
    var lines, out := Split(text, NEWLINE), Split(Dedented(text), NEWLINE);
    var m := MinIndent(lines);
    MinIndentIsMinimum(lines);
    if m.Some? {
      forall i | 0 <= i < |lines|
        ensures Blank(out[i]) <==> Blank(lines[i])
        ensures !Blank(lines[i]) ==>
          m.value <= |lines[i]| && out[i] == lines[i][m.value..] && Indent(out[i]) == Indent(lines[i]) - m.value
      {
        DropFromLine(lines[i], m.value);
      }
      hide DropIndent, Blank;
      MinIndentIsMinimum(out);
    }
  }

  lemma DedentIsIdempotent(text: string)
    ensures Dedented(Dedented(text)) == Dedented(text)
  {
    DedentedShape(text);
  }

  /** Every line, blank or not, with the same prefix in front. */
  function Prefixed(lines: seq<string>, p: string): (out: seq<string>)
    ensures |out| == |lines|
  {
    seq(|lines|, i requires 0 <= i < |lines| => p + lines[i])
  }

  function Indented(text: string, p: string): string {
    Join(Prefixed(Split(text, NEWLINE), p), [NEWLINE])
  }

  /** Dedenting undoes indenting exactly for texts in which some non-blank line is not indented. */
  lemma DedentUndoesIndent(text: string, p: string)
    requires p != "" && forall i :: 0 <= i < |p| ==> IsIndent(p[i])
    ensures Dedented(Indented(text, p)) == text <==> MinIndent(Split(text, NEWLINE)) == Some(0)
  {
    hide Split, MinIndent, Dedented, Join;
    var lines := Split(text, NEWLINE);
    var more := Prefixed(lines, p);
    LinesOfIndented(text, p);
    MinIndentPrefixed(lines, p);
    LinesOfDedented(Indented(text, p));
    JoinSplit(text, NEWLINE);
    var out := Split(Dedented(Indented(text, p)), NEWLINE);
    JoinSplit(Dedented(Indented(text, p)), NEWLINE);
    MinIndentIsMinimum(lines);
    LinesOfSplit(text);
    var m := MinIndent(lines);
    if m == Some(0) {
      assert out == lines by {
        forall i | 0 <= i < |lines| ensures out[i] == lines[i] { assert (p + lines[i])[|p|..] == lines[i]; }
      }
    } else if m.None? {
      assert out[0] == p + lines[0] && |out[0]| != |lines[0]|;
    } else {
      var i :| 0 <= i < |lines| && !Blank(lines[i]) && Indent(lines[i]) == m.value;
      IndentInLine(lines[i]);
      assert more[i] == p + lines[i] && |out[i]| == |lines[i]| - m.value;
    }
  }

  lemma LinesOfIndented(text: string, p: string)
    requires forall i :: 0 <= i < |p| ==> IsIndent(p[i])
    ensures Split(Indented(text, p), NEWLINE) == Prefixed(Split(text, NEWLINE), p)
  {
    LinesOfSplit(text);
    var lines := Split(text, NEWLINE);
    assert forall i :: 0 <= i < |lines| ==> NEWLINE !in p + lines[i];
    SplitJoinFree(Prefixed(lines, p), NEWLINE);
  }

  lemma {:induction false} MinIndentPrefixed(lines: seq<string>, p: string)
    requires forall i :: 0 <= i < |p| ==> IsIndent(p[i])
    ensures MinIndent(Prefixed(lines, p))
         == match MinIndent(lines) case None => None case Some(m) => Some(|p| + m)
    decreases |lines|
  {
    if lines != [] {
      var n := |lines| - 1;
      MinIndentPrefixed(lines[..n], p);
      assert Prefixed(lines, p)[..n] == Prefixed(lines[..n], p);
      IndentOfPrefixed(p, lines[n]);
    }
  }
}
