/**
 The parts of Go's `strings` package that the modelled code is built on:
 `ReplaceAll`, `Join` and `Split`, with the laws the other modules need.
 */
module Strings {

  /** Go's `strings.ReplaceAll` for a non-empty pattern: leftmost, non-overlapping. */
  function ReplaceAll(s: string, pat: string, repl: string): string
    requires pat != ""
    decreases |s|
  {
    if s == "" then ""
    else if pat <= s then repl + ReplaceAll(s[|pat|..], pat, repl)
    else [s[0]] + ReplaceAll(s[1..], pat, repl)
  }

  /** A block without the pattern's first character is copied unchanged. */
  lemma {:induction false} ReplaceAllSkip(block: string, rest: string, pat: string, repl: string)
    requires pat != "" && pat[0] !in block
    ensures ReplaceAll(block + rest, pat, repl) == block + ReplaceAll(rest, pat, repl)
  {
    if block == "" {
      assert block + rest == rest;
    } else {
      var s := block + rest;
      assert s[0] == block[0] && !(pat <= s);
      assert s[1..] == block[1..] + rest;
      ReplaceAllSkip(block[1..], rest, pat, repl);
      assert block == [block[0]] + block[1..];
    }
  }

  /** A pattern standing at the front is replaced. */
  lemma ReplaceAllHit(rest: string, pat: string, repl: string)
    requires pat != ""
    ensures ReplaceAll(pat + rest, pat, repl) == repl + ReplaceAll(rest, pat, repl)
  {
    assert (pat + rest)[|pat|..] == rest;
  }

  /** Where the pattern does not stand, one character is copied. */
  lemma ReplaceAllMiss(c: char, rest: string, pat: string, repl: string)
    requires pat != "" && !(pat <= [c] + rest)
    ensures ReplaceAll([c] + rest, pat, repl) == [c] + ReplaceAll(rest, pat, repl)
  {
    assert ([c] + rest)[1..] == rest;
  }

  /** Go's `strings.Join`. */
  function Join(parts: seq<string>, sep: string): string {
    if |parts| == 0 then ""
    else if |parts| == 1 then parts[0]
    else parts[0] + sep + Join(parts[1..], sep)
  }

  /** Go's `strings.Split` for a one-character separator: never empty. */
  function Split(s: string, sep: char): (parts: seq<string>)
    ensures |parts| >= 1
    ensures forall p <- parts :: sep !in p
  {
    if s == "" then [""]
    else
      var rest := Split(s[1..], sep);
      if s[0] == sep then [""] + rest
      else [[s[0]] + rest[0]] + rest[1..]
  }

  /** Splitting a separator-free piece followed by a separator peels that piece off. */
  lemma {:induction false} SplitPeel(piece: string, rest: string, sep: char)
    requires sep !in piece
    ensures Split(piece + [sep] + rest, sep) == [piece] + Split(rest, sep)
  {
    var s := piece + [sep] + rest;
    if piece == "" {
      assert s == [sep] + rest;
      assert s[1..] == rest;
    } else {
      assert s[0] == piece[0] && s[0] in piece;
      assert s[1..] == piece[1..] + [sep] + rest;
      SplitPeel(piece[1..], rest, sep);
      assert piece == [piece[0]] + piece[1..];
      assert [[s[0]] + piece[1..]] + Split(rest, sep) == [piece] + Split(rest, sep);
    }
  }

  lemma {:induction false} SplitPlain(s: string, sep: char)
    requires sep !in s
    ensures Split(s, sep) == [s]
  {
    if s != "" {
      assert s[0] in s;
      SplitPlain(s[1..], sep);
      assert s == [s[0]] + s[1..];
    }
  }

  /** Joining what was split gives the text back: for every text. */
  lemma {:induction false} JoinSplit(s: string, sep: char)
    ensures Join(Split(s, sep), [sep]) == s
  {
    if s != "" {
      JoinSplit(s[1..], sep);
      var rest := Split(s[1..], sep);
      var parts := Split(s, sep);
      if s[0] == sep {
        assert parts[1..] == rest;
      } else {
        assert parts[1..] == rest[1..];
        if |rest| > 1 {
          assert Join(rest, [sep]) == rest[0] + [sep] + Join(rest[1..], [sep]);
        }
      }
      assert s == [s[0]] + s[1..];
    }
  }

  /**
   Splitting what was joined gives the list back exactly when the list is non-empty and
   no element holds the separator.
   */
  lemma {:induction false} SplitJoin(parts: seq<string>, sep: char)
    ensures Split(Join(parts, [sep]), sep) == parts <==> parts != [] && forall p <- parts :: sep !in p
  {
    if parts != [] && forall p <- parts :: sep !in p {
      SplitJoinFree(parts, sep);
    }
  }

  lemma {:induction false} SplitJoinFree(parts: seq<string>, sep: char)
    requires parts != [] && forall p <- parts :: sep !in p
    ensures Split(Join(parts, [sep]), sep) == parts
  {
    if |parts| == 1 {
      SplitPlain(parts[0], sep);
    } else {
      SplitPeel(parts[0], Join(parts[1..], [sep]), sep);
      SplitJoinFree(parts[1..], sep);
      assert parts == [parts[0]] + parts[1..];
    }
  }
}
