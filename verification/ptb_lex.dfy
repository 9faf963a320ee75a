/** The tokenizer of ptb.py: `(`, `)` and maximal atom runs. */
module PtbLex {
  import opened Chars

  /** LPAREN_TOKEN, RPAREN_TOKEN and STRING_TOKEN with its value. */
  datatype Token = LParen | RParen | Atom(value: string)

  /** What `lex` accepts: a single string or a sequence of lines. */
  datatype Source = Text(text: string) | Lines(lines: seq<string>)

  /** A lone string is treated as a one-line sequence. */
  function AsLines(src: Source): seq<string> {
    match src
    case Text(t) => [t]
    case Lines(ls) => ls
  }

  /** The tokens `finditer` finds in one line, left to right; whitespace is skipped. */
  function LexLine(s: string): seq<Token>
    decreases |s|
  {
    if s == [] then []
    else if s[0] == '(' then [LParen] + LexLine(s[1..])
    else if s[0] == ')' then [RParen] + LexLine(s[1..])
    else if IsSpace(s[0]) then LexLine(s[1..])
    else
      var n := AtomRun(s);
      [Atom(s[..n])] + LexLine(s[n..])
  }

  /** Tokens of successive lines, concatenated in line order. */
  function LexLines(ls: seq<string>): seq<Token> {
    if ls == [] then [] else LexLines(ls[..|ls| - 1]) + LexLine(ls[|ls| - 1])
  }

  /** `lex`: the outer loop over the lines of the input. */
  method Lex(src: Source) returns (toks: seq<Token>)
    ensures toks == LexLines(AsLines(src))
  {
    var lines := AsLines(src);
    toks := [];
    var n := 0;
    while n < |lines|
      invariant n <= |lines|
      invariant toks == LexLines(lines[..n])
    {
      var more := LexOneLine(lines[n]);
      assert lines[..n + 1][..n] == lines[..n];
      toks := toks + more;
      n := n + 1;
    }
    assert lines[..|lines|] == lines;
  }

  /** `lex`: the inner loop over the matches of `\(|\)|[^()\s]+` in one line, left to right. */
  method LexOneLine(line: string) returns (toks: seq<Token>)
    ensures toks == LexLine(line)
  {
    toks := [];
    var rest := line;
    while rest != []
      invariant toks + LexLine(rest) == LexLine(line)
      decreases |rest|
    {
      var c := rest[0];
      if c == '(' || c == ')' {
        var t := if c == '(' then LParen else RParen;
        assert LexLine(rest) == [t] + LexLine(rest[1..]);
        assert toks + ([t] + LexLine(rest[1..])) == (toks + [t]) + LexLine(rest[1..]);
        toks := toks + [t];
        rest := rest[1..];
      } else if IsSpace(c) {
        rest := rest[1..];
      } else {
        var n := AtomEnd(rest, 0);
        AtomRunAt(rest, n);
        assert LexLine(rest) == [Atom(rest[..n])] + LexLine(rest[n..]);
        assert toks + ([Atom(rest[..n])] + LexLine(rest[n..])) == (toks + [Atom(rest[..n])]) + LexLine(rest[n..]);
        toks := toks + [Atom(rest[..n])];
        rest := rest[n..];
      }
    }
    assert toks + [] == toks;
  }

  /** The end of the atom run that starts at `i` (the regex engine's greedy `+`). */
  method AtomEnd(line: string, i: nat) returns (j: nat)
    requires i < |line| && IsAtomChar(line[i])
    ensures i < j <= |line|
    ensures forall k :: i <= k < j ==> IsAtomChar(line[k])
    ensures j == |line| || !IsAtomChar(line[j])
  {
    j := i + 1;
    while j < |line| && IsAtomChar(line[j])
      invariant i < j <= |line|
      invariant forall k :: i <= k < j ==> IsAtomChar(line[k])
    {
      j := j + 1;
    }
  }

  /** Every atom token is a non-empty run without whitespace or parens. */
  predicate WellFormed(ts: seq<Token>) {
    forall k :: 0 <= k < |ts| ==> (ts[k].Atom? ==> IsAtom(ts[k].value))
  }

  lemma {:induction false} LexLineWellFormed(s: string)
    ensures WellFormed(LexLine(s))
    decreases |s|
  {
    if s != [] {
      if s[0] == '(' || s[0] == ')' || IsSpace(s[0]) {
        LexLineWellFormed(s[1..]);
      } else {
        LexLineWellFormed(s[AtomRun(s)..]);
      }
    }
  }

  /** Tokens of any input, single string or lines, are well formed. */
  lemma {:induction false} LexLinesWellFormed(ls: seq<string>)
    ensures WellFormed(LexLines(ls))
  {
    if ls != [] {
      LexLinesWellFormed(ls[..|ls| - 1]);
      LexLineWellFormed(ls[|ls| - 1]);
    }
  }

  /** The text a token stands for. */
  function Spelling(t: Token): string {
    match t
    case LParen => "("
    case RParen => ")"
    case Atom(v) => v
  }

  function Spell(ts: seq<Token>): string {
    if ts == [] then "" else Spelling(ts[0]) + Spell(ts[1..])
  }

  lemma {:induction false} SpellAppend(a: seq<Token>, b: seq<Token>)
    ensures Spell(a + b) == Spell(a) + Spell(b)
  {
    if a == [] {
      assert a + b == b;
    } else {
      assert (a + b)[1..] == a[1..] + b;
      SpellAppend(a[1..], b);
    }
  }

  /** Lexing loses exactly the whitespace: the tokens spell the line without it. */
  lemma {:induction false} LexLineSpelling(s: string)
    ensures Spell(LexLine(s)) == RemoveSpaces(s)
    decreases |s|
  {
    if s != [] {
      if s[0] == '(' || s[0] == ')' {
        LexLineSpelling(s[1..]);
        SpellAppend([LexLine(s)[0]], LexLine(s[1..]));
      } else if IsSpace(s[0]) {
        LexLineSpelling(s[1..]);
      } else {
        var n := AtomRun(s);
        LexLineSpelling(s[n..]);
        SpellAppend([Atom(s[..n])], LexLine(s[n..]));
        assert s == s[..n] + s[n..];
        RemoveSpacesAppend(s[..n], s[n..]);
        RemoveSpacesOfAtom(s[..n]);
      }
    }
  }

  /** Two strings lex independently when no atom runs across the seam. */
  predicate Seam(a: string, b: string) {
    a == [] || b == [] || !IsAtomChar(a[|a| - 1]) || !IsAtomChar(b[0])
  }

  lemma {:induction false} LexLineAppend(a: string, b: string)
    requires Seam(a, b)
    ensures LexLine(a + b) == LexLine(a) + LexLine(b)
    decreases |a|
  {
    if a == [] {
      assert a + b == b;
    } else {
      var ab := a + b;
      assert ab[0] == a[0];
      if a[0] == '(' || a[0] == ')' || IsSpace(a[0]) {
        assert ab[1..] == a[1..] + b;
        LexLineAppend(a[1..], b);
        if !IsSpace(a[0]) {
          ConcatAssoc([if a[0] == '(' then LParen else RParen], LexLine(a[1..]), LexLine(b));
        }
      } else {
        var n := AtomRun(a);
        AtomRunAppend(a, b);
        assert ab[..n] == a[..n];
        assert ab[n..] == a[n..] + b;
        assert LexLine(ab) == [Atom(a[..n])] + LexLine(a[n..] + b);
        LexLineAppend(a[n..], b);
        ConcatAssoc([Atom(a[..n])], LexLine(a[n..]), LexLine(b));
      }
    }
  }

  /** An atom run of `a` is not extended by `b` across a seam. */
  lemma AtomRunAppend(a: string, b: string)
    requires a != [] && Seam(a, b)
    ensures AtomRun(a + b) == AtomRun(a)
  {
    var n := AtomRun(a);
    var ab := a + b;
    assert forall k :: 0 <= k < n ==> ab[k] == a[k];
    if n < |a| {
      assert ab[n] == a[n];
    } else if b != [] {
      assert ab[n] == b[0];
      assert IsAtomChar(a[|a| - 1]);
    }
    AtomRunAt(ab, n);
  }

  /** A line of whitespace yields no tokens. */
  lemma {:induction false} LexLineBlank(s: string)
    requires forall k :: 0 <= k < |s| ==> IsSpace(s[k])
    ensures LexLine(s) == []
    decreases |s|
  {
    if s != [] {
      LexLineBlank(s[1..]);
    }
  }

  /** The tokens written out with one space after each. */
  function Unlex(ts: seq<Token>): string {
    if ts == [] then "" else Spelling(ts[0]) + " " + Unlex(ts[1..])
  }

  /** Lexing recovers well-formed tokens from their text: atoms are maximal runs. */
  lemma {:induction false} LexUnlex(ts: seq<Token>)
    requires WellFormed(ts)
    ensures LexLine(Unlex(ts)) == ts
  {
    if ts != [] {
      var t, tail := ts[0], Unlex(ts[1..]);
      var rest := " " + tail;
      ConcatAssoc(Spelling(t), " ", tail);
      LexLineAppend(Spelling(t), rest);
      assert rest[0] == ' ' && rest[1..] == tail;
      WellFormedTail(ts);
      LexUnlex(ts[1..]);
      LexSpelling(t);
    }
  }

  lemma WellFormedTail(ts: seq<Token>)
    requires ts != [] && WellFormed(ts)
    ensures WellFormed(ts[1..]) && (ts[0].Atom? ==> IsAtom(ts[0].value))
  {
    forall k | 0 <= k < |ts[1..]| ensures ts[1..][k].Atom? ==> IsAtom(ts[1..][k].value) {
      assert ts[1..][k] == ts[k + 1];
    }
  }

  /** A single well-formed token lexes back to itself. */
  lemma LexSpelling(t: Token)
    requires t.Atom? ==> IsAtom(t.value)
    ensures LexLine(Spelling(t)) == [t]
  {
    if t.Atom? {
      var v := t.value;
      AtomRunAt(v, |v|);
      assert v[..|v|] == v;
      assert v[|v|..] == [];
    }
  }
}
