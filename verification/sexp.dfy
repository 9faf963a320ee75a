/** sexp.py: a reader of parenthesised trees as nested lists of strings, and helpers over them. */
module Sexp {
  import opened Chars
  import opened Outcomes
  import opened PtbLex

  // ---------------------------------------------------------------- tokenize

  /** `str.lstrip()`. */
  function LStrip(s: string): (r: string)
    ensures |r| <= |s|
    ensures r == [] || !IsSpace(r[0])
  {
    if s != [] && IsSpace(s[0]) then LStrip(s[1..]) else s
  }

  /** `str.rstrip()`. */
  function RStrip(s: string): (r: string)
    ensures r <= s
    ensures r == [] || !IsSpace(r[|r| - 1])
  {
    if s != [] && IsSpace(s[|s| - 1]) then RStrip(s[..|s| - 1]) else s
  }

  /** `str.strip()`. */
  function Strip(s: string): (r: string)
    ensures r == [] || (!IsSpace(r[0]) && !IsSpace(r[|r| - 1]))
  {
    RStrip(LStrip(s))
  }

  /** `lstrip` removes exactly the leading whitespace: the result is a suffix, and all it cut was whitespace. */
  lemma {:induction false} LStripDrops(s: string)
    ensures LStrip(s) == s[|s| - |LStrip(s)|..]
    ensures forall k :: 0 <= k < |s| - |LStrip(s)| ==> IsSpace(s[k])
    decreases |s|
  {
    if s != [] && IsSpace(s[0]) {
      LStripDrops(s[1..]);
      assert s[1..][|s| - 1 - |LStrip(s)|..] == s[|s| - |LStrip(s)|..];
      forall k | 0 < k < |s| - |LStrip(s)| ensures IsSpace(s[k]) {
        assert s[k] == s[1..][k - 1];
      }
    }
  }

  /** `rstrip` removes exactly the trailing whitespace: the result is a prefix, and all it cut was whitespace. */
  lemma {:induction false} RStripDrops(s: string)
    ensures RStrip(s) == s[..|RStrip(s)|]
    ensures forall k :: |RStrip(s)| <= k < |s| ==> IsSpace(s[k])
    decreases |s|
  {
    if s != [] && IsSpace(s[|s| - 1]) {
      var init := s[..|s| - 1];
      RStripDrops(init);
      assert init[..|RStrip(s)|] == s[..|RStrip(s)|];
      forall k | |RStrip(s)| <= k < |s| - 1 ensures IsSpace(s[k]) {
        assert s[k] == init[k];
      }
    }
  }

  /** `strip` keeps a middle slice of the line, and everything it cut at either end was whitespace. */
  lemma StripDrops(s: string)
    ensures var i := |s| - |LStrip(s)|;
      i + |Strip(s)| <= |s| && Strip(s) == s[i..i + |Strip(s)|]
      && (forall k :: 0 <= k < i ==> IsSpace(s[k]))
      && (forall k :: i + |Strip(s)| <= k < |s| ==> IsSpace(s[k]))
  {
    var l := LStrip(s);
    var i := |s| - |l|;
    var r := RStrip(l);
    assert Strip(s) == r;
    LStripDrops(s);
    RStripDrops(l);
    var n := |r|;
    assert l == s[i..];
    forall k | i + n <= k < |s| ensures IsSpace(s[k]) {
      assert s[k] == l[k - i];
    }
    assert r == l[..n] == s[i..i + n];
  }

  /** Length of `tokenre.match(s)` (`\(|\)|[^()\s]+` anchored at 0); it always matches after a strip. */
  function MatchLen(s: string): (n: nat)
    requires s != [] && !IsSpace(s[0])
    ensures 1 <= n <= |s|
  {
    if IsParen(s[0]) then 1 else AtomRun(s)
  }

  /** The `while line:` loop: take the match, strip what follows on the left, repeat. */
  function Scan(s: string): seq<string>
    requires s == [] || !IsSpace(s[0])
    decreases |s|
  {
    if s == [] then []
    else
      var n := MatchLen(s);
      [s[..n]] + Scan(LStrip(s[n..]))
  }

  function TokenizeLine(line: string): seq<string> {
    Scan(Strip(line))
  }

  /** Tokens of successive lines, in order. */
  function TokenizeLines(lines: seq<string>): seq<string> {
    if lines == [] then [] else TokenizeLines(lines[..|lines| - 1]) + TokenizeLine(lines[|lines| - 1])
  }

  /** `tokenize`: the loop over the lines of the input. */
  method Tokenize(lines: seq<string>) returns (toks: seq<string>)
    ensures toks == TokenizeLines(lines)
  {
    toks := [];
    var k := 0;
    while k < |lines|
      invariant k <= |lines|
      invariant toks == TokenizeLines(lines[..k])
    {
      assert lines[..k + 1][..k] == lines[..k];
      var more := TokenizeOneLine(lines[k]);
      toks := toks + more;
      k := k + 1;
    }
    assert lines[..|lines|] == lines;
  }

  /** `tokenize`, one line: strip it, then repeatedly match a token and left-strip the remainder. */
  method TokenizeOneLine(s: string) returns (toks: seq<string>)
    ensures toks == TokenizeLine(s)
  {
    toks := [];
    var line := Strip(s);
    while line != []
      invariant line == [] || !IsSpace(line[0])
      invariant toks + Scan(line) == TokenizeLine(s)
      decreases |line|
    {
      var n := MatchLen(line);
      var tok := line[..n];
      var rest := LStrip(line[n..]);
      assert Scan(line) == [tok] + Scan(rest);
      ConcatAssoc(toks, [tok], Scan(rest));
      line := rest;
      toks := toks + [tok];
    }
    assert toks + [] == toks;
  }

  /** The texts of lexer tokens. */
  function Texts(ts: seq<Token>): (r: seq<string>)
    ensures |r| == |ts|
  {
    if ts == [] then [] else [Spelling(ts[0])] + Texts(ts[1..])
  }

  lemma {:induction false} TextsAppend(a: seq<Token>, b: seq<Token>)
    ensures Texts(a + b) == Texts(a) + Texts(b)
  {
    if a == [] {
      assert a + b == b;
    } else {
      assert (a + b)[1..] == a[1..] + b;
      TextsAppend(a[1..], b);
    }
  }

  lemma {:induction false} LexLineLStrip(s: string)
    ensures LexLine(LStrip(s)) == LexLine(s)
  {
    if s != [] && IsSpace(s[0]) {
      LexLineLStrip(s[1..]);
    }
  }

  lemma {:induction false} LexLineRStrip(s: string)
    ensures LexLine(RStrip(s)) == LexLine(s)
  {
    if s != [] && IsSpace(s[|s| - 1]) {
      var init := s[..|s| - 1];
      LexLineRStrip(init);
      assert s == init + [s[|s| - 1]];
      LexLineAppend(init, [s[|s| - 1]]);
      LexLineBlank([s[|s| - 1]]);
    }
  }

  lemma {:induction false} ScanLex(s: string)
    requires s == [] || !IsSpace(s[0])
    ensures Scan(s) == Texts(LexLine(s))
    decreases |s|
  {
    if s != [] {
      var n := MatchLen(s);
      var rest := LStrip(s[n..]);
      ScanLex(rest);
      LexLineLStrip(s[n..]);
      if IsParen(s[0]) {
        assert s[..1] == [s[0]];
      }
    }
  }

  /** `tokenize` agrees with ptb.py's `lex`: the same tokens, as strings. */
  lemma TokenizeLineLex(line: string)
    ensures TokenizeLine(line) == Texts(LexLine(line))
  {
    ScanLex(Strip(line));
    LexLineRStrip(LStrip(line));
    LexLineLStrip(line);
  }

  /** The strings joined with nothing between them. */
  function Concat(ss: seq<string>): string {
    if ss == [] then "" else ss[0] + Concat(ss[1..])
  }

  lemma {:induction false} ConcatTexts(ts: seq<Token>)
    ensures Concat(Texts(ts)) == Spell(ts)
  {
    if ts != [] {
      ConcatTexts(ts[1..]);
    }
  }

  /** A token is `(`, `)` or an atom: a non-empty run without whitespace or parens. */
  predicate IsToken(t: string) {
    t == "(" || t == ")" || IsAtom(t)
  }

  /**
   * The tokens of a line, joined, are the line with its whitespace removed, and each one
   * is a paren or an atom.
   */
  lemma TokenizeLineSpelling(line: string)
    ensures Concat(TokenizeLine(line)) == RemoveSpaces(line)
    ensures forall k :: 0 <= k < |TokenizeLine(line)| ==> IsToken(TokenizeLine(line)[k])
  {
    TokenizeLineLex(line);
    ConcatTexts(LexLine(line));
    LexLineSpelling(line);
    LexLineWellFormed(line);
    TextsTokens(LexLine(line));
  }

  lemma {:induction false} TextsTokens(ts: seq<Token>)
    requires WellFormed(ts)
    ensures forall k :: 0 <= k < |ts| ==> IsToken(Texts(ts)[k])
  {
    if ts != [] {
      assert WellFormed(ts[1..]) by {
        forall k | 0 <= k < |ts[1..]| ensures ts[1..][k].Atom? ==> IsAtom(ts[1..][k].value) {
          assert ts[1..][k] == ts[k + 1];
        }
      }
      TextsTokens(ts[1..]);
      forall k | 0 < k < |ts| ensures IsToken(Texts(ts)[k]) {
        assert Texts(ts)[k] == Texts(ts[1..])[k - 1];
      }
    }
  }

  // ---------------------------------------------------------------- balance_parens

  /** What `balance_parens` yields: a depth-0 atom alone, or a list of tokens from `(` to its matching `)`. */
  datatype Group = Lone(atom: string) | Balanced(tokens: seq<string>)

  /** The yielded groups, then whether the generator stopped on the `pars > 0` assertion. */
  datatype Grouped = Grouped(groups: seq<Group>, failed: bool)

  function Size(g: Group): nat {
    match g
    case Lone(_) => 1
    case Balanced(ts) => |ts|
  }

  function FlatLen(gs: seq<Group>): nat {
    if gs == [] then 0 else Size(gs[0]) + FlatLen(gs[1..])
  }

  /** The tokens the groups hold, in order. */
  function Flat(gs: seq<Group>): (r: seq<string>)
    ensures |r| == FlatLen(gs)
  {
    if gs == [] then []
    else (match gs[0] case Lone(a) => [a] case Balanced(ts) => ts) + Flat(gs[1..])
  }

  function PrependGroup(g: Group, r: Grouped): Grouped {
    Grouped([g] + r.groups, r.failed)
  }

  /** The loop of `balance_parens` from the state `elts`, `pars`. */
  function Balance(elts: seq<string>, pars: nat, toks: seq<string>): Grouped
    decreases |toks|
  {
    if toks == [] then Grouped([], false)
    else
      var t, rest := toks[0], toks[1..];
      if t == "(" then Balance(elts + ["("], pars + 1, rest)
      else if t == ")" then
        if pars == 0 then Grouped([], true)
        else if pars == 1 then PrependGroup(Balanced(elts + [")"]), Balance([], 0, rest))
        else Balance(elts + [")"], pars - 1, rest)
      else if pars == 0 then PrependGroup(Lone(t), Balance(elts, 0, rest))
      else Balance(elts + [t], pars, rest)
  }

  /** `balance_parens`, with `elts` a list the loop appends to and `pars` the depth counter. */
  method BalanceParens(tokens: seq<string>) returns (groups: seq<Group>, failed: bool)
    ensures Grouped(groups, failed) == Balance([], 0, tokens)
  {
    var elts: seq<string> := [];
    var pars: nat := 0;
    groups, failed := [], false;
    var i := 0;
    while i < |tokens|
      invariant i <= |tokens|
      invariant Grouped(groups + Balance(elts, pars, tokens[i..]).groups, Balance(elts, pars, tokens[i..]).failed)
                == Balance([], 0, tokens)
    {
      var tok := tokens[i];
      ghost var rest := tokens[i + 1..];
      assert tokens[i..] == [tok] + rest;
      if tok == "(" {
        assert Balance(elts, pars, tokens[i..]) == Balance(elts + ["("], pars + 1, rest);
        elts := elts + ["("];
        pars := pars + 1;
      } else if tok == ")" {
        if pars == 0 {
          assert Balance(elts, pars, tokens[i..]) == Grouped([], true);
          failed := true;
          return;
        }
        ghost var r := Balance([], 0, rest);
        assert pars == 1 ==> Balance(elts, pars, tokens[i..]) == PrependGroup(Balanced(elts + [")"]), r);
        assert pars > 1 ==> Balance(elts, pars, tokens[i..]) == Balance(elts + [")"], pars - 1, rest);
        elts := elts + [")"];
        pars := pars - 1;
        if pars == 0 {
          assert groups + ([Balanced(elts)] + r.groups) == (groups + [Balanced(elts)]) + r.groups;
          groups := groups + [Balanced(elts)];
          elts := [];
        }
      } else if pars == 0 {
        ghost var r := Balance(elts, 0, rest);
        assert Balance(elts, pars, tokens[i..]) == PrependGroup(Lone(tok), r);
        assert groups + ([Lone(tok)] + r.groups) == (groups + [Lone(tok)]) + r.groups;
        groups := groups + [Lone(tok)];
      } else {
        assert Balance(elts, pars, tokens[i..]) == Balance(elts + [tok], pars, rest);
        elts := elts + [tok];
      }
      i := i + 1;
    }
  }

  /** Groups never hold more tokens than the state and the input together. */
  lemma {:induction false} BalanceSize(elts: seq<string>, pars: nat, toks: seq<string>)
    ensures FlatLen(Balance(elts, pars, toks).groups) <= |elts| + |toks|
    decreases |toks|
  {
    if toks != [] {
      var t, rest := toks[0], toks[1..];
      if t == "(" {
        BalanceSize(elts + ["("], pars + 1, rest);
      } else if t == ")" {
        if pars == 1 {
          BalanceSize([], 0, rest);
        } else if pars > 1 {
          BalanceSize(elts + [")"], pars - 1, rest);
        }
      } else if pars == 0 {
        BalanceSize(elts, 0, rest);
      } else {
        BalanceSize(elts + [t], pars, rest);
      }
    }
  }

  /** How a token moves the depth. */
  function Delta(t: string): int {
    if t == "(" then 1 else if t == ")" then -1 else 0
  }

  /** Opening minus closing parens. */
  function Depth(ts: seq<string>): int {
    if ts == [] then 0 else Depth(ts[..|ts| - 1]) + Delta(ts[|ts| - 1])
  }

  /** From `(` to its matching `)`: the depth is positive on every proper prefix and zero at the end. */
  predicate BalancedRun(g: seq<string>) {
    |g| >= 2 && g[0] == "(" && g[|g| - 1] == ")" && Depth(g) == 0
    && forall k :: 1 <= k < |g| ==> Depth(g[..k]) > 0
  }

  /** The invariant of `elts` and `pars`: an open group has its depth as counter, and none is open at 0. */
  predicate Partial(elts: seq<string>, pars: nat) {
    if pars == 0 then elts == []
    else elts != [] && elts[0] == "(" && Depth(elts) == pars
         && forall k :: 1 <= k <= |elts| ==> Depth(elts[..k]) > 0
  }

  lemma PartialPush(elts: seq<string>, pars: nat, t: string)
    requires Partial(elts, pars) && pars + Delta(t) > 0
    requires pars == 0 ==> t == "("
    ensures Partial(elts + [t], pars + Delta(t))
  {
    var e := elts + [t];
    assert e[..|e| - 1] == elts;
    forall k | 1 <= k <= |e| ensures Depth(e[..k]) > 0 {
      if k < |e| {
        assert e[..k] == elts[..k];
      } else {
        assert e[..k] == e;
      }
    }
  }

  lemma PartialClose(elts: seq<string>)
    requires Partial(elts, 1)
    ensures BalancedRun(elts + [")"])
  {
    var e := elts + [")"];
    assert e[..|e| - 1] == elts;
    forall k | 1 <= k < |e| ensures Depth(e[..k]) > 0 {
      assert e[..k] == elts[..k];
    }
  }

  /** A group of the shape `balance_parens` yields: an atom other than a paren, or a balanced run. */
  predicate GroupOk(g: Group) {
    match g
    case Lone(a) => a != "(" && a != ")"
    case Balanced(ts) => BalancedRun(ts)
  }

  /**
   * Every group `balance_parens` yields is an atom other than a paren, or a balanced run
   * from `(` to its matching `)`.
   */
  lemma {:induction false} BalanceGroups(elts: seq<string>, pars: nat, toks: seq<string>)
    requires Partial(elts, pars)
    ensures forall i :: 0 <= i < |Balance(elts, pars, toks).groups| ==> GroupOk(Balance(elts, pars, toks).groups[i])
    decreases |toks|
  {
    if toks != [] {
      var t, rest := toks[0], toks[1..];
      if t == "(" {
        PartialPush(elts, pars, t);
        BalanceGroups(elts + ["("], pars + 1, rest);
      } else if t == ")" && pars == 1 {
        BalanceGroups([], 0, rest);
        CloseGroupOk(elts, toks);
      } else if t == ")" && pars > 1 {
        PartialPush(elts, pars, t);
        BalanceGroups(elts + [")"], pars - 1, rest);
      } else if t != ")" && pars == 0 {
        BalanceGroups(elts, 0, rest);
        LoneGroupOk(elts, toks);
      } else if t != ")" {
        PartialPush(elts, pars, t);
        BalanceGroups(elts + [t], pars, rest);
      }
    }
  }

  /** The `)` that closes the outermost group yields a balanced run. */
  lemma CloseGroupOk(elts: seq<string>, toks: seq<string>)
    requires Partial(elts, 1) && toks != [] && toks[0] == ")"
    requires forall i :: 0 <= i < |Balance([], 0, toks[1..]).groups| ==> GroupOk(Balance([], 0, toks[1..]).groups[i])
    ensures forall i :: 0 <= i < |Balance(elts, 1, toks).groups| ==> GroupOk(Balance(elts, 1, toks).groups[i])
  {
    PartialClose(elts);
    GroupsOkCons(Balanced(elts + [")"]), Balance([], 0, toks[1..]).groups);
  }

  /** An atom outside any group is yielded alone. */
  lemma LoneGroupOk(elts: seq<string>, toks: seq<string>)
    requires toks != [] && toks[0] != "(" && toks[0] != ")"
    requires forall i :: 0 <= i < |Balance(elts, 0, toks[1..]).groups| ==> GroupOk(Balance(elts, 0, toks[1..]).groups[i])
    ensures forall i :: 0 <= i < |Balance(elts, 0, toks).groups| ==> GroupOk(Balance(elts, 0, toks).groups[i])
  {
    GroupsOkCons(Lone(toks[0]), Balance(elts, 0, toks[1..]).groups);
  }

  lemma GroupsOkCons(g: Group, gs: seq<Group>)
    requires GroupOk(g) && forall i :: 0 <= i < |gs| ==> GroupOk(gs[i])
    ensures forall i :: 0 <= i < |[g] + gs| ==> GroupOk(([g] + gs)[i])
  {
    forall i | 0 < i < |[g] + gs| ensures GroupOk(([g] + gs)[i]) {
      assert ([g] + gs)[i] == gs[i - 1];
    }
  }

  /** Reference definition of the failure: the running depth, started at `pars`, drops below zero. */
  predicate Dips(pars: int, toks: seq<string>)
    decreases |toks|
  {
    toks != [] && (pars + Delta(toks[0]) < 0 || Dips(pars + Delta(toks[0]), toks[1..]))
  }

  /** The running depth at the end of the input. */
  function FinalDepth(pars: int, toks: seq<string>): int
    decreases |toks|
  {
    if toks == [] then pars else FinalDepth(pars + Delta(toks[0]), toks[1..])
  }

  /** `balance_parens` fails exactly when a `)` arrives at depth 0. */
  lemma {:induction false} BalanceFails(elts: seq<string>, pars: nat, toks: seq<string>)
    ensures Balance(elts, pars, toks).failed <==> Dips(pars, toks)
    decreases |toks|
  {
    if toks != [] {
      var t, rest := toks[0], toks[1..];
      if t == "(" {
        BalanceFails(elts + ["("], pars + 1, rest);
      } else if t == ")" {
        if pars == 1 {
          BalanceFails([], 0, rest);
        } else if pars > 1 {
          BalanceFails(elts + [")"], pars - 1, rest);
        }
      } else if pars == 0 {
        BalanceFails(elts, 0, rest);
      } else {
        BalanceFails(elts + [t], pars, rest);
      }
    }
  }

  /**
   * The groups hold the input tokens in order: a prefix of them in general, and all of
   * them when the input ends at depth 0 without failing.
   */
  lemma {:induction false} BalanceFlat(elts: seq<string>, pars: nat, toks: seq<string>)
    requires Partial(elts, pars)
    ensures Flat(Balance(elts, pars, toks).groups) <= elts + toks
    ensures !Dips(pars, toks) && FinalDepth(pars, toks) == 0 ==> Flat(Balance(elts, pars, toks).groups) == elts + toks
    decreases |toks|
  {
    if toks == [] {
      assert elts + toks == elts;
    } else {
      var t, rest := toks[0], toks[1..];
      assert toks == [t] + rest;
      ConcatAssoc(elts, [t], rest);
      var d := pars + Delta(t);
      assert Dips(pars, toks) == (d < 0 || Dips(d, rest));
      assert FinalDepth(pars, toks) == FinalDepth(d, rest);
      if t == "(" {
        PartialPush(elts, pars, t);
        BalanceFlat(elts + ["("], d, rest);
        assert Balance(elts, pars, toks) == Balance(elts + ["("], d, rest);
      } else if t == ")" && pars == 0 {
        assert Balance(elts, pars, toks).groups == [];
      } else if t == ")" && pars == 1 {
        BalanceFlat([], 0, rest);
        var r := Balance([], 0, rest);
        assert Balance(elts, pars, toks) == PrependGroup(Balanced(elts + [")"]), r);
        assert [] + rest == rest;
        FlatCons(Balanced(elts + [")"]), r.groups);
        PrefixAppend(elts + [")"], Flat(r.groups), rest);
      } else if t == ")" {
        PartialPush(elts, pars, t);
        BalanceFlat(elts + [")"], d, rest);
        assert Balance(elts, pars, toks) == Balance(elts + [")"], d, rest);
      } else if pars == 0 {
        BalanceFlat(elts, 0, rest);
        var r := Balance(elts, 0, rest);
        assert Balance(elts, pars, toks) == PrependGroup(Lone(t), r);
        FlatCons(Lone(t), r.groups);
        PrefixAppend([t], Flat(r.groups), rest);
      } else {
        PartialPush(elts, pars, t);
        BalanceFlat(elts + [t], pars, rest);
        assert Balance(elts, pars, toks) == Balance(elts + [t], pars, rest);
      }
    }
  }

  lemma FlatCons(g: Group, gs: seq<Group>)
    ensures Flat([g] + gs) == (match g case Lone(a) => [a] case Balanced(ts) => ts) + Flat(gs)
  {
    assert ([g] + gs)[1..] == gs;
  }

  lemma PrefixAppend<T>(a: seq<T>, b: seq<T>, c: seq<T>)
    ensures b <= c ==> a + b <= a + c
    ensures b == c ==> a + b == a + c
  {
    if b <= c {
      assert (a + c)[..|a + b|] == a + b;
    }
  }

  /** A group still open at the end of the input is dropped without error: some tokens go unreported. */
  lemma {:induction false} BalanceDropsOpen(elts: seq<string>, pars: nat, toks: seq<string>)
    requires pars > 0 ==> elts != []
    requires !Dips(pars, toks) && FinalDepth(pars, toks) > 0
    ensures !Balance(elts, pars, toks).failed
    ensures FlatLen(Balance(elts, pars, toks).groups) < |elts| + |toks|
    decreases |toks|
  {
    if toks != [] {
      var t, rest := toks[0], toks[1..];
      if t == "(" {
        BalanceDropsOpen(elts + ["("], pars + 1, rest);
      } else if t == ")" {
        if pars == 1 {
          BalanceDropsOpen([], 0, rest);
          var r := Balance([], 0, rest);
          assert FlatLen([Balanced(elts + [")"])] + r.groups) == |elts| + 1 + FlatLen(r.groups) by {
            assert ([Balanced(elts + [")"])] + r.groups)[1..] == r.groups;
          }
        } else {
          BalanceDropsOpen(elts + [")"], pars - 1, rest);
        }
      } else if pars == 0 {
        BalanceDropsOpen(elts, 0, rest);
        var r := Balance(elts, 0, rest);
        assert ([Lone(t)] + r.groups)[1..] == r.groups;
      } else {
        BalanceDropsOpen(elts + [t], pars, rest);
      }
    }
  }

  // ---------------------------------------------------------------- sexps, stringify

  /** A Python value the reader builds: a string, or a list of values. */
  datatype Node = Str(text: string) | List(items: seq<Node>)

  /** What the `sexps` generator produces: the values yielded, then whether it raised. */
  datatype Read = Read(items: seq<Node>, failed: bool)

  function Cons(x: Node, r: Read): Read {
    Read([x] + r.items, r.failed)
  }

  /** `sexps`: each group of `balance_parens`, converted; a failure of either stops the output. */
  function Sexps(toks: seq<string>): Read
    decreases |toks|, 1
  {
    var b := Balance([], 0, toks);
    BalanceSize([], 0, toks);
    var c := Convert(b.groups);
    Read(c.items, c.failed || b.failed)
  }

  /**
   * The body of the loop of `sexps` over the groups: an atom as itself, a one-token list as
   * that token, and otherwise (after the assertion on its parens) the list of what `sexps`
   * reads between them.
   */
  function Convert(gs: seq<Group>): Read
    decreases FlatLen(gs), 0
  {
    if gs == [] then Read([], false)
    else match gs[0]
      case Lone(a) => Cons(Str(a), Convert(gs[1..]))
      case Balanced(els) =>
        if |els| == 1 then Cons(Str(els[0]), Convert(gs[1..]))
        else if |els| == 0 || els[0] != "(" || els[|els| - 1] != ")" then Read([], true)
        else
          var inner := Sexps(els[1..|els| - 1]);
          if inner.failed then Read([], true) else Cons(List(inner.items), Convert(gs[1..]))
  }

  /** `stringify`: a list as `(`, its elements joined by single spaces, `)`; a string as itself. */
  function Stringify(x: Node): string
    decreases x, 1, 0
  {
    match x
    case Str(s) => s
    case List(_) => "(" + JoinFrom(x, 0) + ")"
  }

  /** `' '.join` of the renderings of `x.items[k..]`. */
  function JoinFrom(x: Node, k: nat): string
    requires x.List?
    decreases x, 0, |x.items| - k
  {
    if k >= |x.items| then ""
    else if k == |x.items| - 1 then Stringify(x.items[k])
    else Stringify(x.items[k]) + " " + JoinFrom(x, k + 1)
  }

  /** The token sequence a value stands for. */
  function Tokens(x: Node): seq<string>
    decreases x, 1, 0
  {
    match x
    case Str(s) => [s]
    case List(_) => ["("] + TokensFrom(x, 0) + [")"]
  }

  function TokensFrom(x: Node, k: nat): seq<string>
    requires x.List?
    decreases x, 0, |x.items| - k
  {
    if k >= |x.items| then [] else Tokens(x.items[k]) + TokensFrom(x, k + 1)
  }

  /** Every string in the value is an atom the lexer reads back whole. */
  predicate WellFormedNode(x: Node) {
    match x
    case Str(s) => IsAtom(s)
    case List(items) => forall i :: 0 <= i < |items| ==> WellFormedNode(items[i])
  }

  // ---------------------------------------------------------------- stringify, then read back

  lemma LexLineAtom(s: string)
    requires IsAtom(s)
    ensures LexLine(s) == [Atom(s)]
  {
    AtomRunAt(s, |s|);
    assert s[..|s|] == s;
    assert s[|s|..] == [];
  }

  /** The text `stringify` writes lexes into exactly the tokens the value stands for. */
  lemma {:induction false} StringifyLex(x: Node)
    requires WellFormedNode(x)
    ensures Texts(LexLine(Stringify(x))) == Tokens(x)
    decreases x, 1, 0
  {
    match x
    case Str(s) =>
      LexLineAtom(s);
    case List(_) =>
      var j := JoinFrom(x, 0);
      JoinLex(x, 0);
      assert Stringify(x) == "(" + (j + ")");
      LexLineAppend("(", j + ")");
      LexLineAppend(j, ")");
      assert LexLine("(") == [LParen] && LexLine(")") == [RParen];
      TextsAppend([LParen], LexLine(j) + [RParen]);
      TextsAppend(LexLine(j), [RParen]);
      assert Texts([LParen]) == ["("] && Texts([RParen]) == [")"];
  }

  lemma {:induction false} JoinLex(x: Node, k: nat)
    requires x.List? && WellFormedNode(x)
    ensures Texts(LexLine(JoinFrom(x, k))) == TokensFrom(x, k)
    decreases x, 0, |x.items| - k
  {
    if k < |x.items| {
      var y := x.items[k];
      StringifyLex(y);
      JoinLex(x, k + 1);
      if k == |x.items| - 1 {
        assert TokensFrom(x, k) == Tokens(y) + [];
      } else {
        var a, j := Stringify(y), JoinFrom(x, k + 1);
        assert JoinFrom(x, k) == a + (" " + j);
        LexLineAppend(a, " " + j);
        LexLineAppend(" ", j);
        TextsAppend(LexLine(a), LexLine(j));
      }
    }
  }

  /** Inside an open group, the tokens of a value are only collected. */
  lemma {:induction false} BalanceInside(y: Node, elts: seq<string>, p: nat, rest: seq<string>)
    requires p > 0 && WellFormedNode(y)
    ensures Balance(elts, p, Tokens(y) + rest) == Balance(elts + Tokens(y), p, rest)
    decreases y, 1, 0
  {
    match y
    case Str(s) =>
      assert s[0] != '(' && s[0] != ')';
      assert (Tokens(y) + rest)[0] == s && (Tokens(y) + rest)[1..] == rest;
    case List(_) =>
      var tf := TokensFrom(y, 0);
      assert Tokens(y) + rest == ["("] + (tf + ([")"] + rest));
      BalanceInsideFrom(y, 0, elts + ["("], p + 1, [")"] + rest);
      assert ([")"] + rest)[0] == ")" && ([")"] + rest)[1..] == rest;
      assert elts + ["("] + tf + [")"] == elts + Tokens(y);
  }

  lemma {:induction false} BalanceInsideFrom(x: Node, k: nat, elts: seq<string>, p: nat, rest: seq<string>)
    requires x.List? && p > 0 && WellFormedNode(x)
    ensures Balance(elts, p, TokensFrom(x, k) + rest) == Balance(elts + TokensFrom(x, k), p, rest)
    decreases x, 0, |x.items| - k
  {
    if k >= |x.items| {
      assert TokensFrom(x, k) + rest == rest;
      assert elts + TokensFrom(x, k) == elts;
    } else {
      var y := x.items[k];
      var tf := TokensFrom(x, k + 1);
      assert TokensFrom(x, k) + rest == Tokens(y) + (tf + rest);
      BalanceInside(y, elts, p, tf + rest);
      BalanceInsideFrom(x, k + 1, elts + Tokens(y), p, rest);
      assert elts + Tokens(y) + tf == elts + TokensFrom(x, k);
    }
  }

  /** The group `balance_parens` yields for a value at depth 0. */
  function GroupOf(y: Node): Group {
    match y
    case Str(s) => Lone(s)
    case List(_) => Balanced(Tokens(y))
  }

  lemma BalanceTop(y: Node, rest: seq<string>)
    requires WellFormedNode(y)
    ensures Balance([], 0, Tokens(y) + rest) == PrependGroup(GroupOf(y), Balance([], 0, rest))
  {
    match y
    case Str(s) =>
      assert s[0] != '(' && s[0] != ')';
      assert (Tokens(y) + rest)[0] == s && (Tokens(y) + rest)[1..] == rest;
    case List(_) =>
      var tf := TokensFrom(y, 0);
      assert Tokens(y) + rest == ["("] + (tf + ([")"] + rest));
      assert [] + ["("] == ["("];
      BalanceInsideFrom(y, 0, ["("], 1, [")"] + rest);
      assert ([")"] + rest)[0] == ")" && ([")"] + rest)[1..] == rest;
      assert ["("] + tf + [")"] == Tokens(y);
  }

  /** Reading the tokens of a value followed by more tokens gives the value, then what the rest gives. */
  lemma {:induction false} SexpsCons(y: Node, rest: seq<string>)
    requires WellFormedNode(y)
    ensures Sexps(Tokens(y) + rest) == Cons(y, Sexps(rest))
    decreases y, 1, 0
  {
    BalanceTop(y, rest);
    var b := Balance([], 0, rest);
    assert ([GroupOf(y)] + b.groups)[1..] == b.groups;
    match y
    case Str(s) =>
    case List(items) =>
      var els := Tokens(y);
      var tf := TokensFrom(y, 0);
      assert els[1..|els| - 1] == tf;
      SexpsFrom(y, 0);
      assert items[0..] == items;
  }

  lemma {:induction false} SexpsFrom(x: Node, k: nat)
    requires x.List? && k <= |x.items| && WellFormedNode(x)
    ensures Sexps(TokensFrom(x, k)) == Read(x.items[k..], false)
    decreases x, 0, |x.items| - k
  {
    if k == |x.items| {
      assert Balance([], 0, []) == Grouped([], false);
    } else {
      var tf := TokensFrom(x, k + 1);
      SexpsCons(x.items[k], tf);
      SexpsFrom(x, k + 1);
      assert x.items[k..] == [x.items[k]] + x.items[k + 1..];
    }
  }

  /** `stringify` is inverted by `tokenize` then `sexps`, for values whose strings are atoms. */
  lemma RoundTrip(x: Node)
    requires WellFormedNode(x)
    ensures Sexps(TokenizeLines([Stringify(x)])) == Read([x], false)
  {
    assert [Stringify(x)][..0] == [];
    TokenizeLineLex(Stringify(x));
    StringifyLex(x);
    assert TokenizeLines([Stringify(x)]) == [] + Tokens(x) == Tokens(x) + [];
    SexpsCons(x, []);
    assert Balance([], 0, []) == Grouped([], false);
    assert Sexps([]) == Read([], false);
    assert [x] + [] == [x];
  }

  /** `()` reads back as the empty list. */
  lemma SexpsEmptyList()
    ensures Sexps(["(", ")"]) == Read([List([])], false)
  {
    var toks := ["(", ")"];
    assert toks[1..] == [")"] && toks[1..][1..] == [];
    assert [] + ["("] == ["("] && ["("] + [")"] == toks;
    assert Balance([], 0, toks) == Balance(["("], 1, [")"]);
    assert Balance(["("], 1, [")"]) == PrependGroup(Balanced(toks), Balance([], 0, []));
    assert toks[1..|toks| - 1] == [];
    assert Sexps([]) == Read([], false);
    var gs := [Balanced(toks)];
    assert gs[1..] == [];
    assert Convert(gs) == Cons(List([]), Convert([]));
  }

  /** With every open group started at depth `Depth(pre) - 1`, a run whose every prefix stays positive never dips. */
  lemma {:induction false} PositiveNoDips(pre: seq<string>, ts: seq<string>)
    requires forall k :: 0 <= k <= |ts| ==> Depth(pre + ts[..k]) > 0
    ensures !Dips(Depth(pre) - 1, ts)
    decreases |ts|
  {
    if ts != [] {
      var p := pre + [ts[0]];
      assert p == pre + ts[..1];
      assert p[..|p| - 1] == pre;
      forall k | 0 <= k <= |ts[1..]| ensures Depth(p + ts[1..][..k]) > 0 {
        assert p + ts[1..][..k] == pre + ts[..k + 1];
      }
      PositiveNoDips(p, ts[1..]);
    }
  }

  /** The tokens between the outer parens of a balanced run never close more than they open. */
  lemma InsideNoDips(g: seq<string>)
    requires BalancedRun(g)
    ensures !Dips(0, g[1..|g| - 1])
  {
    var inner := g[1..|g| - 1];
    assert ["("][..0] == [];
    forall k | 0 <= k <= |inner| ensures Depth(["("] + inner[..k]) > 0 {
      assert ["("] + inner[..k] == g[..k + 1];
    }
    PositiveNoDips(["("], inner);
  }

  /** `sexps` raises exactly when `balance_parens` does: when a `)` arrives at depth 0. */
  lemma {:induction false} SexpsFails(toks: seq<string>)
    ensures Sexps(toks).failed <==> Dips(0, toks)
    decreases |toks|, 1
  {
    BalanceFails([], 0, toks);
    BalanceGroups([], 0, toks);
    BalanceSize([], 0, toks);
    ConvertSucceeds(Balance([], 0, toks).groups);
  }

  /** Converting groups of the shape `balance_parens` yields never raises. */
  lemma {:induction false} ConvertSucceeds(gs: seq<Group>)
    requires forall i :: 0 <= i < |gs| ==> GroupOk(gs[i])
    ensures !Convert(gs).failed
    decreases FlatLen(gs), 0
  {
    if gs != [] {
      match gs[0]
      case Lone(a) =>
        ConvertSucceeds(gs[1..]);
      case Balanced(els) =>
        InsideNoDips(els);
        SexpsFails(els[1..|els| - 1]);
        ConvertSucceeds(gs[1..]);
    }
  }

  // ---------------------------------------------------------------- isterminal, terminals

  /** Python's `len` of a value. */
  function Len(x: Node): nat {
    match x
    case Str(s) => |s|
    case List(items) => |items|
  }

  /** Python's `x[i]`: a one-character string of a string, an element of a list. */
  function Elem(x: Node, i: nat): (r: Node)
    requires i < Len(x)
    ensures x.List? ==> r == x.items[i]
    ensures x.Str? ==> r == Str([x.text[i]])
  {
    match x
    case Str(s) => Str([s[i]])
    case List(items) => items[i]
  }

  /** `isterminal`: two elements, both strings; for a string, any two-character string. */
  predicate IsTerminal(x: Node) {
    Len(x) == 2 && Elem(x, 0).Str? && Elem(x, 1).Str?
  }

  /** The terminal-shape test inside `terminals`, on lists only. */
  predicate IsLeaf(x: Node) {
    x.List? && |x.items| == 2 && x.items[0].Str? && x.items[1].Str?
  }

  /** Whether `terminals` reports a leaf: its tag is not `-NONE-`, or null elements are included. */
  predicate Reported(leaf: Node, includeNulls: bool)
    requires IsLeaf(leaf)
  {
    leaf.items[0].text != "-NONE-" || includeNulls
  }

  /** `terminals` on a list: itself if it is a leaf, else the leaves under its list elements, left to right. */
  function TerminalsOf(x: Node, includeNulls: bool): seq<Node>
    requires x.List?
    decreases x, 1, 0
  {
    if IsLeaf(x) then (if Reported(x, includeNulls) then [x] else [])
    else TerminalsFrom(x, 0, includeNulls)
  }

  function TerminalsFrom(x: Node, k: nat, includeNulls: bool): seq<Node>
    requires x.List?
    decreases x, 0, |x.items| - k
  {
    if k >= |x.items| then []
    else (if x.items[k].List? then TerminalsOf(x.items[k], includeNulls) else [])
         + TerminalsFrom(x, k + 1, includeNulls)
  }

  /** `terminals`: the assertion that the value is a list, then the leaves. */
  function Terminals(x: Node, includeNulls: bool): (r: Result<seq<Node>>)
    ensures r.Err? <==> x.Str?
    ensures r.Err? ==> r.error == AssertionError
    ensures x.List? ==> r == Ok(TerminalsOf(x, includeNulls))
  {
    if x.Str? then Err(AssertionError) else Ok(TerminalsOf(x, includeNulls))
  }

  /** Every value `terminals` yields is a two-string leaf, and without nulls none has the tag `-NONE-`. */
  lemma {:induction false} TerminalsAreLeaves(x: Node, includeNulls: bool)
    requires x.List?
    ensures forall i :: 0 <= i < |TerminalsOf(x, includeNulls)| ==>
      IsLeaf(TerminalsOf(x, includeNulls)[i]) && IsTerminal(TerminalsOf(x, includeNulls)[i])
      && Reported(TerminalsOf(x, includeNulls)[i], includeNulls)
    decreases x, 1, 0
  {
    if !IsLeaf(x) {
      TerminalsFromAreLeaves(x, 0, includeNulls);
    }
  }

  lemma {:induction false} TerminalsFromAreLeaves(x: Node, k: nat, includeNulls: bool)
    requires x.List?
    ensures forall i :: 0 <= i < |TerminalsFrom(x, k, includeNulls)| ==>
      IsLeaf(TerminalsFrom(x, k, includeNulls)[i]) && IsTerminal(TerminalsFrom(x, k, includeNulls)[i])
      && Reported(TerminalsFrom(x, k, includeNulls)[i], includeNulls)
    decreases x, 0, |x.items| - k
  {
    if k < |x.items| {
      if x.items[k].List? {
        TerminalsAreLeaves(x.items[k], includeNulls);
      }
      TerminalsFromAreLeaves(x, k + 1, includeNulls);
    }
  }

  /** The leaves `terminals` reports, in order: those whose tag is not `-NONE-`, or all of them with nulls included. */
  function Kept(ts: seq<Node>, includeNulls: bool): seq<Node>
    requires forall i :: 0 <= i < |ts| ==> IsLeaf(ts[i])
  {
    if ts == [] then []
    else (if Reported(ts[0], includeNulls) then [ts[0]] else []) + Kept(ts[1..], includeNulls)
  }

  lemma {:induction false} KeptAppend(a: seq<Node>, b: seq<Node>, includeNulls: bool)
    requires forall i :: 0 <= i < |a| ==> IsLeaf(a[i])
    requires forall i :: 0 <= i < |b| ==> IsLeaf(b[i])
    ensures forall i :: 0 <= i < |a + b| ==> IsLeaf((a + b)[i])
    ensures Kept(a + b, includeNulls) == Kept(a, includeNulls) + Kept(b, includeNulls)
  {
    forall i | 0 <= i < |a + b| ensures IsLeaf((a + b)[i]) {
      if i < |a| {
        assert (a + b)[i] == a[i];
      } else {
        assert (a + b)[i] == b[i - |a|];
      }
    }
    if a != [] {
      var h := if Reported(a[0], includeNulls) then [a[0]] else [];
      assert (a + b)[0] == a[0] && (a + b)[1..] == a[1..] + b;
      KeptAppend(a[1..], b, includeNulls);
      ConcatAssoc(h, Kept(a[1..], includeNulls), Kept(b, includeNulls));
    } else {
      assert a + b == b;
    }
  }

  /** Leaving out the null elements is filtering the full output: the order of the others is kept. */
  lemma {:induction false} TerminalsWithoutNulls(x: Node)
    requires x.List?
    ensures forall i :: 0 <= i < |TerminalsOf(x, true)| ==> IsLeaf(TerminalsOf(x, true)[i])
    ensures TerminalsOf(x, false) == Kept(TerminalsOf(x, true), false)
    decreases x, 1, 0
  {
    TerminalsAreLeaves(x, true);
    if IsLeaf(x) {
      assert Kept([x], false) == (if Reported(x, false) then [x] else []) + Kept([], false);
    } else {
      TerminalsFromWithoutNulls(x, 0);
    }
  }

  lemma {:induction false} TerminalsFromWithoutNulls(x: Node, k: nat)
    requires x.List?
    ensures forall i :: 0 <= i < |TerminalsFrom(x, k, true)| ==> IsLeaf(TerminalsFrom(x, k, true)[i])
    ensures TerminalsFrom(x, k, false) == Kept(TerminalsFrom(x, k, true), false)
    decreases x, 0, |x.items| - k
  {
    TerminalsFromAreLeaves(x, k, true);
    if k < |x.items| {
      var head := if x.items[k].List? then TerminalsOf(x.items[k], true) else [];
      if x.items[k].List? {
        TerminalsWithoutNulls(x.items[k]);
      }
      TerminalsFromWithoutNulls(x, k + 1);
      KeptAppend(head, TerminalsFrom(x, k + 1, true), false);
    }
  }

  /** Reference definition: `t` is `x`, or is reached from `x` through the elements of lists. */
  predicate Within(t: Node, x: Node)
    decreases x
  {
    t == x || (x.List? && exists i :: 0 <= i < |x.items| && Within(t, x.items[i]))
  }

  /**
   * `terminals` yields exactly the leaves found under the value, the `-NONE-` ones only with
   * `include_nulls`: a value is yielded iff it is a two-string list reached through list elements.
   */
  lemma {:induction false} TerminalsReach(x: Node, includeNulls: bool, t: Node)
    requires x.List?
    ensures t in TerminalsOf(x, includeNulls) <==> IsLeaf(t) && Reported(t, includeNulls) && Within(t, x)
    decreases x, 1, 0
  {
    if !IsLeaf(x) {
      TerminalsFromReach(x, 0, includeNulls, t);
    }
  }

  lemma {:induction false} TerminalsFromReach(x: Node, k: nat, includeNulls: bool, t: Node)
    requires x.List?
    ensures t in TerminalsFrom(x, k, includeNulls) <==>
      IsLeaf(t) && Reported(t, includeNulls) && exists i :: k <= i < |x.items| && Within(t, x.items[i])
    decreases x, 0, |x.items| - k
  {
    if k < |x.items| {
      if x.items[k].List? {
        TerminalsReach(x.items[k], includeNulls, t);
      } else {
        assert Within(t, x.items[k]) ==> t == x.items[k];
      }
      TerminalsFromReach(x, k + 1, includeNulls, t);
      if IsLeaf(t) && Reported(t, includeNulls) && (exists i :: k <= i < |x.items| && Within(t, x.items[i])) {
        var i :| k <= i < |x.items| && Within(t, x.items[i]);
        assert i == k || k + 1 <= i;
      }
    }
  }

  /** Under a label whose children are all leaves, `terminals` yields the reported children, left to right. */
  lemma TerminalsOfLeaves(tag: string, kids: seq<Node>, includeNulls: bool)
    requires forall i :: 0 <= i < |kids| ==> IsLeaf(kids[i])
    ensures TerminalsOf(List([Str(tag)] + kids), includeNulls) == Kept(kids, includeNulls)
  {
    var x := List([Str(tag)] + kids);
    assert !IsLeaf(x) by {
      if |kids| == 1 {
        assert x.items[1] == kids[0];
      }
    }
    assert forall k :: 0 <= k < |kids| ==> x.items[k + 1] == kids[k];
    TerminalsFromLeaves(x, kids, 0, includeNulls);
    assert TerminalsFrom(x, 0, includeNulls) == [] + TerminalsFrom(x, 1, includeNulls);
    assert kids[0..] == kids;
  }

  lemma {:induction false} TerminalsFromLeaves(x: Node, kids: seq<Node>, k: nat, includeNulls: bool)
    requires x.List? && |x.items| == |kids| + 1 && k <= |kids|
    requires forall i :: 0 <= i < |kids| ==> IsLeaf(kids[i]) && x.items[i + 1] == kids[i]
    ensures TerminalsFrom(x, k + 1, includeNulls) == Kept(kids[k..], includeNulls)
    decreases |kids| - k
  {
    if k < |kids| {
      TerminalsFromLeaves(x, kids, k + 1, includeNulls);
      var kid := kids[k];
      assert x.items[k + 1] == kid;
      assert kids[k..][0] == kid && kids[k..][1..] == kids[k + 1..];
    } else {
      assert kids[k..] == [];
    }
  }

  // ---------------------------------------------------------------- remove_coindex, simplify_tag

  /** Where Python's `$` can match last: before a final newline, else at the end. */
  function EndPos(s: string): (e: nat)
    ensures e <= |s| && (e == |s| || (e == |s| - 1 && s[e] == '\n'))
  {
    if s != [] && s[|s| - 1] == '\n' then |s| - 1 else |s|
  }

  /** Length of the run of digits that ends at `e`. */
  function DigitsBefore(s: string, e: nat): (d: nat)
    requires e <= |s|
    ensures d <= e
    ensures forall k :: e - d <= k < e ==> IsDigit(s[k])
    ensures d == e || !IsDigit(s[e - d - 1])
  {
    if e == 0 || !IsDigit(s[e - 1]) then 0 else 1 + DigitsBefore(s, e - 1)
  }

  /**
   * `remove_coindex`: `re.sub('-\d+$', '', tag)`. The one possible match is a `-` and the
   * digits running up to where `$` matches; it is cut out, keeping a final newline.
   */
  function RemoveCoindex(s: string): (r: string)
    ensures |r| <= |s|
    ensures s == [] || s[|s| - 1] != '\n' ==> r <= s
  {
    var e := EndPos(s);
    var d := DigitsBefore(s, e);
    if d > 0 && d < e && s[e - d - 1] == '-' then s[..e - d - 1] + s[e..] else s
  }

  /** A non-empty run of ASCII digits. */
  predicate IsDigits(d: string) {
    d != [] && forall k :: 0 <= k < |d| ==> IsDigit(d[k])
  }

  /** Reference definition: the text ends, before an optional final newline, in `-` and digits. */
  predicate HasCoindex(s: string) {
    exists i :: 0 <= i < EndPos(s) && s[i] == '-' && IsDigits(s[i + 1..EndPos(s)])
  }

  lemma DigitsBeforeAt(s: string, e: nat, d: nat)
    requires d <= e <= |s|
    requires forall k :: e - d <= k < e ==> IsDigit(s[k])
    requires d == e || !IsDigit(s[e - d - 1])
    ensures DigitsBefore(s, e) == d
    decreases e
  {
    if d > 0 {
      DigitsBeforeAt(s, e - 1, d - 1);
    }
  }

  /** `remove_coindex` changes its input exactly when the input has a trailing coindex. */
  lemma RemoveCoindexChanges(s: string)
    ensures RemoveCoindex(s) != s <==> HasCoindex(s)
  {
    if HasCoindex(s) {
      CoindexIsCut(s);
    }
    var e := EndPos(s);
    var d := DigitsBefore(s, e);
    if d > 0 && d < e && s[e - d - 1] == '-' {
      CutIsCoindex(s);
    }
  }

  /** A trailing coindex is what the digit scan finds. */
  lemma CoindexIsCut(s: string)
    requires HasCoindex(s)
    ensures var e := EndPos(s); var d := DigitsBefore(s, e); d > 0 && d < e && s[e - d - 1] == '-'
  {
    var e := EndPos(s);
    var i :| 0 <= i < e && s[i] == '-' && IsDigits(s[i + 1..e]);
    var t := s[i + 1..e];
    forall k | i + 1 <= k < e ensures IsDigit(s[k]) {
      assert s[k] == t[k - i - 1];
    }
    assert !IsDigit(s[i]);
    DigitsBeforeAt(s, e, e - i - 1);
  }

  /** What the digit scan cuts is a trailing coindex, and cutting it shortens the string. */
  lemma CutIsCoindex(s: string)
    requires var e := EndPos(s); var d := DigitsBefore(s, e); d > 0 && d < e && s[e - d - 1] == '-'
    ensures HasCoindex(s) && RemoveCoindex(s) != s
  {
    var e := EndPos(s);
    var d := DigitsBefore(s, e);
    var i := e - d - 1;
    var t := s[i + 1..e];
    forall k | 0 <= k < |t| ensures IsDigit(t[k]) {
      assert t[k] == s[i + 1 + k];
    }
    assert IsDigits(t);
    assert |RemoveCoindex(s)| == |s| - d - 1;
  }

  /** Exactly one trailing `-digits` is removed, before a final newline if there is one. */
  lemma RemoveCoindexStrips(p: string, d: string, nl: string)
    requires IsDigits(d) && (nl == "" || nl == "\n")
    ensures RemoveCoindex(p + "-" + d + nl) == p + nl
  {
    var s := p + "-" + d + nl;
    var e := |p| + 1 + |d|;
    assert EndPos(s) == e;
    assert s[|p|] == '-';
    forall k | e - |d| <= k < e ensures IsDigit(s[k]) {
      assert s[k] == d[k - |p| - 1];
    }
    DigitsBeforeAt(s, e, |d|);
    assert s[..|p|] == p && s[e..] == nl;
  }

  /** Removing a coindex is not idempotent: `NP-1-2` loses only its last index. */
  lemma RemoveCoindexNotIdempotent()
    ensures RemoveCoindex("NP-1-2") == "NP-1"
    ensures RemoveCoindex(RemoveCoindex("NP-1-2")) == "NP"
  {
    RemoveCoindexStrips("NP-1", "2", "");
    assert "NP-1" + "-" + "2" + "" == "NP-1-2";
    assert "NP-1" + "" == "NP-1";
    RemoveCoindexStrips("NP", "1", "");
    assert "NP" + "-" + "1" + "" == "NP-1";
    assert "NP" + "" == "NP";
  }

  /** Length of the leading run of uppercase ASCII letters. */
  function UpperRun(s: string): (n: nat)
    ensures n <= |s|
    ensures forall k :: 0 <= k < n ==> IsUpper(s[k])
    ensures n == |s| || !IsUpper(s[n])
  {
    if s == [] || !IsUpper(s[0]) then 0 else 1 + UpperRun(s[1..])
  }

  predicate IsUppers(s: string) {
    forall k :: 0 <= k < |s| ==> IsUpper(s[k])
  }

  /**
   * Whether `(-[A-Z]{3})*(-\d+)?$` matches all of `t`: three-letter groups, then an
   * optional number, then the end or a final newline. The grammar is deterministic,
   * so the backtracking of the regex engine never changes the answer.
   */
  predicate GroupsTail(t: string)
    decreases |t|
  {
    if t == "" || t == "\n" then true
    else if |t| >= 4 && t[0] == '-' && IsUppers(t[1..4]) then GroupsTail(t[4..])
    else t[0] == '-' && IsDigits(t[1..EndPos(t)])
  }

  /**
   * `simplify_tag`: when `([A-Z]+)(-[A-Z]{3})*(-\d+)?$` matches from the start, the
   * uppercase run; otherwise the tag unchanged. The greedy `[A-Z]+` takes the whole run,
   * since giving a letter back leaves an uppercase letter where `-` or the end is needed.
   */
  function SimplifyTag(s: string): (r: string)
    ensures r <= s
    ensures r != s ==> r != [] && IsUppers(r) && (s[|r|] == '-' || s[|r|] == '\n')
  {
    var u := UpperRun(s);
    if u > 0 && GroupsTail(s[u..]) then s[..u] else s
  }

  /** Simplifying twice is simplifying once. */
  lemma SimplifyTagIdempotent(s: string)
    ensures SimplifyTag(SimplifyTag(s)) == SimplifyTag(s)
  {
    var u := UpperRun(s);
    if u > 0 && GroupsTail(s[u..]) {
      var r := s[..u];
      assert r[..|r|] == r;
      assert UpperRun(r) == u by {
        UpperRunAt(r, u);
      }
      assert r[u..] == "";
    }
  }

  lemma UpperRunAt(s: string, n: nat)
    requires n <= |s| && (forall k :: 0 <= k < n ==> IsUpper(s[k])) && (n == |s| || !IsUpper(s[n]))
    ensures UpperRun(s) == n
    decreases n
  {
    if n > 0 {
      UpperRunAt(s[1..], n - 1);
    }
  }

  /** Three-letter groups joined with `-`, each after a `-`. */
  function Dashed(groups: seq<string>): string {
    if groups == [] then "" else "-" + groups[0] + Dashed(groups[1..])
  }

  lemma {:induction false} GroupsTailDashed(groups: seq<string>, tail: string)
    requires forall i :: 0 <= i < |groups| ==> |groups[i]| == 3 && IsUppers(groups[i])
    requires GroupsTail(tail) && (tail == [] || !IsUpper(tail[0]))
    ensures GroupsTail(Dashed(groups) + tail)
    ensures Dashed(groups) + tail == [] || !IsUpper((Dashed(groups) + tail)[0])
  {
    if groups != [] {
      GroupsTailDashed(groups[1..], tail);
      var more := Dashed(groups[1..]) + tail;
      var t := Dashed(groups) + tail;
      ConcatAssoc("-" + groups[0], Dashed(groups[1..]), tail);
      assert t == ("-" + groups[0]) + more;
      assert t[1..4] == groups[0];
      assert t[4..] == more;
    } else {
      assert Dashed(groups) + tail == tail;
    }
  }

  lemma GroupsTailIndex(index: string, nl: string)
    requires index == "" || IsDigits(index)
    requires nl == "" || nl == "\n"
    ensures var t := (if index == "" then "" else "-" + index) + nl; GroupsTail(t) && (t == [] || !IsUpper(t[0]))
  {
    if index != "" {
      var t := "-" + index + nl;
      assert t[|t| - 1] == if nl == "" then index[|index| - 1] else '\n';
      assert EndPos(t) == |t| - |nl|;
      assert t[1..EndPos(t)] == index;
      assert !IsUpper(t[1]);
    } else {
      assert "" + nl == nl;
    }
  }

  /**
   * Reference definition of what `([A-Z]+)(-[A-Z]{3})*(-\d+)?$` matches: an uppercase word,
   * three-letter function tags, an optional index and an optional final newline.
   */
  predicate TagShape(word: string, groups: seq<string>, index: string, nl: string) {
    word != [] && IsUppers(word)
    && (forall i :: 0 <= i < |groups| ==> |groups[i]| == 3 && IsUppers(groups[i]))
    && (index == "" || IsDigits(index))
    && (nl == "" || nl == "\n")
  }

  /** The tag those parts spell. */
  function TagText(word: string, groups: seq<string>, index: string, nl: string): string {
    word + Dashed(groups) + (if index == "" then "" else "-" + index) + nl
  }

  /** Every tag of the regex's shape simplifies to its word. */
  lemma SimplifyTagOfShape(word: string, groups: seq<string>, index: string, nl: string)
    requires TagShape(word, groups, index, nl)
    ensures SimplifyTag(TagText(word, groups, index, nl)) == word
  {
    var idx := if index == "" then "" else "-" + index;
    var tail := idx + nl;
    GroupsTailIndex(index, nl);
    GroupsTailDashed(groups, tail);
    var rest := Dashed(groups) + tail;
    calc {
      TagText(word, groups, index, nl);
      word + Dashed(groups) + idx + nl;
      { ConcatAssoc(word + Dashed(groups), idx, nl); }
      word + Dashed(groups) + tail;
      { ConcatAssoc(word, Dashed(groups), tail); }
      word + rest;
    }
    UpperRunPrefix(word, rest);
  }

  /**
   * Conversely, a tag that `simplify_tag` changes has the regex's shape, with the result as
   * its word; so every tag not of that shape comes back unchanged.
   */
  lemma SimplifyTagChanged(s: string)
    requires SimplifyTag(s) != s
    ensures exists groups, index, nl ::
      (TagShape(SimplifyTag(s), groups, index, nl) && s == TagText(SimplifyTag(s), groups, index, nl))
  {
    var u := UpperRun(s);
    var word := s[..u];
    assert IsUppers(word) by {
      forall k | 0 <= k < |word| ensures IsUpper(word[k]) {
        assert word[k] == s[k];
      }
    }
    var groups, index, nl := GroupsTailParts(s[u..]);
    var idx := if index == "" then "" else "-" + index;
    calc {
      s;
      word + s[u..];
      word + (Dashed(groups) + idx + nl);
      { ConcatAssoc(Dashed(groups), idx, nl); }
      word + (Dashed(groups) + (idx + nl));
      { ConcatAssoc(word, Dashed(groups), idx + nl); }
      word + Dashed(groups) + (idx + nl);
      { ConcatAssoc(word + Dashed(groups), idx, nl); }
      TagText(word, groups, index, nl);
    }
    assert TagShape(word, groups, index, nl);
  }

  lemma SplitHead<T>(t: seq<T>, n: nat)
    requires 1 <= n <= |t|
    ensures t == [t[0]] + t[1..n] + t[n..]
  {
  }

  /** The parts of a tail `(-[A-Z]{3})*(-\d+)?$` matches. */
  lemma {:induction false} GroupsTailParts(t: string) returns (groups: seq<string>, index: string, nl: string)
    requires GroupsTail(t)
    ensures forall i :: 0 <= i < |groups| ==> |groups[i]| == 3 && IsUppers(groups[i])
    ensures (index == "" || IsDigits(index)) && (nl == "" || nl == "\n")
    ensures t == Dashed(groups) + (if index == "" then "" else "-" + index) + nl
    decreases |t|
  {
    if t == "" || t == "\n" {
      groups, index, nl := [], "", t;
      assert Dashed([]) + "" + t == t;
    } else if |t| >= 4 && t[0] == '-' && IsUppers(t[1..4]) {
      var more;
      more, index, nl := GroupsTailParts(t[4..]);
      groups := [t[1..4]] + more;
      DashedCons(t, more, if index == "" then "" else "-" + index, nl);
    } else {
      var e := EndPos(t);
      groups, index, nl := [], t[1..e], t[e..];
      IndexTail(t);
    }
  }

  /** One more three-letter group in front of a tail's parts. */
  lemma DashedCons(t: string, more: seq<string>, idx: string, nl: string)
    requires |t| >= 4 && t[0] == '-' && t[4..] == Dashed(more) + idx + nl
    ensures t == Dashed([t[1..4]] + more) + idx + nl
  {
    var g := t[1..4];
    var groups := [g] + more;
    assert groups[1..] == more;
    assert Dashed(groups) == "-" + g + Dashed(more);
    SplitHead(t, 4);
    assert [t[0]] == "-";
    calc {
      t;
      "-" + g + t[4..];
      "-" + g + (Dashed(more) + idx + nl);
      { ConcatAssoc(Dashed(more), idx, nl); }
      "-" + g + (Dashed(more) + (idx + nl));
      { ConcatAssoc("-" + g, Dashed(more), idx + nl); }
      Dashed(groups) + (idx + nl);
      { ConcatAssoc(Dashed(groups), idx, nl); }
      Dashed(groups) + idx + nl;
    }
  }

  /** A tail that is only an index: `-`, the digits, and what follows `$`. */
  lemma IndexTail(t: string)
    requires t != [] && t[0] == '-' && IsDigits(t[1..EndPos(t)])
    ensures var e := EndPos(t); t == Dashed([]) + ("-" + t[1..e]) + t[e..]
  {
    var e := EndPos(t);
    SplitHead(t, e);
    assert [t[0]] == "-";
    assert Dashed([]) + ("-" + t[1..e]) == "-" + t[1..e];
  }

  /** The uppercase run of an uppercase word followed by anything else is that word. */
  lemma UpperRunPrefix(word: string, rest: string)
    requires IsUppers(word) && (rest == [] || !IsUpper(rest[0]))
    ensures UpperRun(word + rest) == |word|
    ensures (word + rest)[..|word|] == word && (word + rest)[|word|..] == rest
  {
    var s := word + rest;
    forall k | 0 <= k < |word| ensures IsUpper(s[k]) {
      assert s[k] == word[k];
    }
    if rest != [] {
      assert s[|word|] == rest[0];
    }
    UpperRunAt(s, |word|);
    assert s[..|word|] == word;
    assert s[|word|..] == rest;
  }

  /** A null element's tag has no uppercase run at its start and is kept. */
  lemma SimplifyTagNull()
    ensures SimplifyTag("-NONE-") == "-NONE-"
  {
    assert UpperRun("-NONE-") == 0;
  }

  /** A tag with a character outside the grammar is kept. */
  lemma SimplifyTagPossessive()
    ensures SimplifyTag("PRP$") == "PRP$"
  {
    var s := "PRP$";
    UpperRunAt(s, 3);
    assert s[3..] == "$";
    assert !GroupsTail("$");
  }

  /** A function tag must have exactly three letters. */
  lemma SimplifyTagShortGroup()
    ensures SimplifyTag("NP-SB") == "NP-SB"
  {
    var s := "NP-SB";
    UpperRunAt(s, 2);
    var t := s[2..];
    assert t == "-SB";
    assert EndPos(t) == 3;
    assert t[1..3] == "SB";
    assert !IsDigit(t[1..3][0]);
    assert !GroupsTail(t);
  }

  lemma SimplifyTagSubject()
    ensures SimplifyTag("NP-SBJ-1") == "NP"
  {
    SimplifyTagOfShape("NP", ["SBJ"], "1", "");
    assert Dashed(["SBJ"]) == "-SBJ" + Dashed([]);
    var s := "NP" + Dashed(["SBJ"]) + (if "1" == "" then "" else "-" + "1") + "";
    assert s == "NP-SBJ-1";
  }

  // ---------------------------------------------------------------- pattern

  /** Python's `x[0]`, or the IndexError of an empty string or list. */
  function First(x: Node): (r: Result<Node>)
    ensures r.Ok? <==> Len(x) > 0
    ensures r.Ok? ==> r.value == Elem(x, 0)
  {
    if Len(x) == 0 then Err(IndexError) else Ok(Elem(x, 0))
  }

  /** Python's `x[1:]`, as the values iterating over it gives. */
  function Rest(x: Node): (r: seq<Node>)
    ensures |r| == if Len(x) == 0 then 0 else Len(x) - 1
    ensures forall i :: 0 <= i < |r| ==> r[i] == Elem(x, i + 1)
  {
    match x
    case Str(s) => if s == [] then [] else seq(|s| - 1, i requires 0 <= i < |s| - 1 => Str([s[i + 1]]))
    case List(items) => if items == [] then [] else items[1..]
  }

  /** `[c[0] for c in cs]`: the first element of each, failing at the first empty one. */
  function Heads(cs: seq<Node>): (r: Result<seq<Node>>)
    ensures r.Ok? <==> forall i :: 0 <= i < |cs| ==> Len(cs[i]) > 0
    ensures r.Ok? ==> |r.value| == |cs| && forall i :: 0 <= i < |cs| ==> r.value[i] == Elem(cs[i], 0)
    ensures r.Err? ==> r.error == IndexError
  {
    if cs == [] then Ok([])
    else match First(cs[0])
      case Err(e) => Err(e)
      case Ok(h) =>
        match Heads(cs[1..])
        case Err(e) => Err(e)
        case Ok(hs) => Ok([h] + hs)
  }

  /** The strings `remove_quotes` leaves out. */
  predicate IsQuote(v: Node) {
    v == Str("``") || v == Str("''")
  }

  /** `[c for c in children if c not in ("``", "''")]`. */
  function DropQuotes(cs: seq<Node>): (r: seq<Node>)
    ensures |r| <= |cs|
    ensures forall i :: 0 <= i < |r| ==> !IsQuote(r[i]) && r[i] in cs
    ensures forall v :: v in cs && !IsQuote(v) ==> v in r
  {
    if cs == [] then []
    else (if IsQuote(cs[0]) then [] else [cs[0]]) + DropQuotes(cs[1..])
  }

  /** Filtering a concatenation filters each part, so the kept children stay in order and keep their repetitions. */
  lemma {:induction false} DropQuotesAppend(a: seq<Node>, b: seq<Node>)
    ensures DropQuotes(a + b) == DropQuotes(a) + DropQuotes(b)
  {
    if a == [] {
      assert a + b == b;
    } else {
      var h := if IsQuote(a[0]) then [] else [a[0]];
      assert (a + b)[0] == a[0] && (a + b)[1..] == a[1..] + b;
      DropQuotesAppend(a[1..], b);
      ConcatAssoc(h, DropQuotes(a[1..]), DropQuotes(b));
    }
  }

  /** A single child is dropped exactly when it is a quote. */
  lemma DropQuotesSingle(v: Node)
    ensures DropQuotes([v]) == if IsQuote(v) then [] else [v]
  {
    assert [v][1..] == [];
  }

  /**
   * The `remove_initial_cc` step: with a first child `CC` and a second one other than `,`
   * or `:`, the first child is dropped; a missing first or second child is an IndexError.
   */
  function DropInitialCC(cs: seq<Node>): (r: Result<seq<Node>>)
    ensures r.Err? <==> cs == [] || (cs[0] == Str("CC") && |cs| < 2)
    ensures r.Ok? ==> r.value == cs || (r.value == cs[1..] && cs[0] == Str("CC"))
    ensures r.Ok? && cs[0] != Str("CC") ==> r.value == cs
    ensures r.Ok? && cs[0] == Str("CC") ==> (r.value == cs[1..] <==> cs[1] != Str(",") && cs[1] != Str(":"))
  {
    if cs == [] then Err(IndexError)
    else if cs[0] != Str("CC") then Ok(cs)
    else if |cs| < 2 then Err(IndexError)
    else if cs[1] == Str(",") || cs[1] == Str(":") then Ok(cs)
    else Ok(cs[1..])
  }

  /** `proc`: `simplify_tag` or `remove_coindex` on a string; on a list the `re` call raises TypeError. */
  function Proc(removeFunctions: bool, v: Node): (r: Result<string>)
    ensures r.Err? <==> v.List?
  {
    match v
    case List(_) => Err(TypeError)
    case Str(s) => Ok(if removeFunctions then SimplifyTag(s) else RemoveCoindex(s))
  }

  /** `list(proc(c) for c in children)`, failing at the first list. */
  function ProcAll(removeFunctions: bool, cs: seq<Node>): (r: Result<seq<string>>)
    ensures r.Ok? <==> forall i :: 0 <= i < |cs| ==> cs[i].Str?
    ensures r.Ok? ==> |r.value| == |cs| && forall i :: 0 <= i < |cs| ==> Ok(r.value[i]) == Proc(removeFunctions, cs[i])
  {
    if cs == [] then Ok([])
    else if cs[0].List? then Err(TypeError)
    else
      var rest := ProcAll(removeFunctions, cs[1..]);
      if rest.Err? then rest
      else Ok([Proc(removeFunctions, cs[0]).value] + rest.value)
  }

  /** A one-element list is replaced by its element. */
  function Unwrap(x: Node): Node {
    if Len(x) == 1 && x.List? then x.items[0] else x
  }

  /** The children's labels, after the optional quote and conjunction steps. */
  function PatternChildren(x: Node, removeQuotes: bool, removeInitialCC: bool): Result<seq<Node>> {
    match Heads(Rest(x))
    case Err(e) => Err(e)
    case Ok(hs) =>
      var cs := if removeQuotes then DropQuotes(hs) else hs;
      if removeInitialCC then DropInitialCC(cs) else Ok(cs)
  }

  /** `pattern`: the processed label of a (possibly wrapped) node and the processed labels of its children. */
  function Pattern(x: Node, removeFunctions: bool, removeQuotes: bool, removeInitialCC: bool)
    : Result<(string, seq<string>)>
  {
    var y := Unwrap(x);
    match PatternChildren(y, removeQuotes, removeInitialCC)
    case Err(e) => Err(e)
    case Ok(cs) =>
      match First(y)
      case Err(e) => Err(e)
      case Ok(h) =>
        match Proc(removeFunctions, h)
        case Err(e) => Err(e)
        case Ok(head) =>
          match ProcAll(removeFunctions, cs)
          case Err(e) => Err(e)
          case Ok(ps) => Ok((head, ps))
  }

  /** What `proc` does to a string. */
  function ProcText(removeFunctions: bool, s: string): string {
    if removeFunctions then SimplifyTag(s) else RemoveCoindex(s)
  }

  /** Children that are non-empty lists headed by a string: the shape the reader gives a tree. */
  predicate Labelled(kids: seq<Node>) {
    forall i :: 0 <= i < |kids| ==> kids[i].List? && kids[i].items != [] && kids[i].items[0].Str?
  }

  /** The processed labels of labelled children, in order. */
  function KidLabels(removeFunctions: bool, kids: seq<Node>): (r: seq<string>)
    requires Labelled(kids)
    ensures |r| == |kids|
  {
    seq(|kids|, i requires 0 <= i < |kids| => ProcText(removeFunctions, kids[i].items[0].text))
  }

  lemma ProcAllLabels(removeFunctions: bool, kids: seq<Node>)
    requires Labelled(kids)
    ensures Heads(kids).Ok?
    ensures ProcAll(removeFunctions, Heads(kids).value) == Ok(KidLabels(removeFunctions, kids))
  {
    var hs := Heads(kids).value;
    assert forall i :: 0 <= i < |hs| ==> hs[i] == kids[i].items[0];
    var r := ProcAll(removeFunctions, hs);
    assert r.Ok?;
    assert r.value == KidLabels(removeFunctions, kids);
  }

  /**
   * On a tree with a string label and at least one labelled child, `pattern` with its default
   * flags gives the processed label and the processed labels of the children, in order.
   */
  lemma PatternOfTree(tag: string, kids: seq<Node>, removeFunctions: bool)
    requires Labelled(kids) && kids != []
    ensures Pattern(List([Str(tag)] + kids), removeFunctions, false, false)
            == Ok((ProcText(removeFunctions, tag), KidLabels(removeFunctions, kids)))
  {
    var x := List([Str(tag)] + kids);
    assert Rest(x) == kids;
    ProcAllLabels(removeFunctions, kids);
  }

  /** With `remove_initial_cc`, a leading `CC` child is dropped unless a `,` or `:` follows it. */
  lemma PatternInitialCC(tag: string, kids: seq<Node>, removeFunctions: bool)
    requires Labelled(kids) && |kids| >= 2
    requires kids[0].items[0] == Str("CC") && kids[1].items[0] != Str(",") && kids[1].items[0] != Str(":")
    ensures Pattern(List([Str(tag)] + kids), removeFunctions, false, true)
            == Ok((ProcText(removeFunctions, tag), KidLabels(removeFunctions, kids[1..])))
  {
    var x := List([Str(tag)] + kids);
    assert Rest(x) == kids;
    var hs := Heads(kids).value;
    assert hs[1..] == Heads(kids[1..]).value;
    assert Labelled(kids[1..]) by {
      forall i | 0 <= i < |kids[1..]| ensures kids[1..][i].List? && kids[1..][i].items != [] && kids[1..][i].items[0].Str? {
        assert kids[1..][i] == kids[i + 1];
      }
    }
    ProcAllLabels(removeFunctions, kids[1..]);
  }

  /** With `remove_initial_cc`, a lone `CC` child makes `children[1]` raise IndexError. */
  lemma PatternLoneCC(tag: string, kid: Node, removeFunctions: bool, removeQuotes: bool)
    requires kid.List? && kid.items != [] && kid.items[0] == Str("CC")
    ensures Pattern(List([Str(tag), kid]), removeFunctions, removeQuotes, true) == Err(IndexError)
  {
    var x := List([Str(tag), kid]);
    assert Rest(x) == [kid];
    assert [kid][1..] == [] && [Str("CC")] + [] == [Str("CC")];
    assert Heads([kid]) == Ok([Str("CC")]);
    assert DropQuotes([Str("CC")]) == [Str("CC")] + DropQuotes([]);
  }

  /** With `simplify_tag` and `remove_quotes`, no processed child label is a quote. */
  lemma PatternNoQuotes(x: Node, removeInitialCC: bool)
    requires Pattern(x, true, true, removeInitialCC).Ok?
    ensures forall i :: 0 <= i < |Pattern(x, true, true, removeInitialCC).value.1| ==>
      Pattern(x, true, true, removeInitialCC).value.1[i] != "``" && Pattern(x, true, true, removeInitialCC).value.1[i] != "''"
  {
    var y := Unwrap(x);
    var cs := PatternChildren(y, true, removeInitialCC).value;
    ChildrenNoQuotes(y, removeInitialCC);
    ProcAllNoQuotes(cs);
  }

  lemma ChildrenNoQuotes(y: Node, removeInitialCC: bool)
    requires PatternChildren(y, true, removeInitialCC).Ok?
    ensures forall i :: 0 <= i < |PatternChildren(y, true, removeInitialCC).value| ==>
      !IsQuote(PatternChildren(y, true, removeInitialCC).value[i])
  {
    var qs := DropQuotes(Heads(Rest(y)).value);
    var cs := PatternChildren(y, true, removeInitialCC).value;
    if removeInitialCC && cs != qs {
      assert cs == qs[1..];
      forall i | 0 <= i < |cs| ensures !IsQuote(cs[i]) {
        assert cs[i] == qs[i + 1];
      }
    }
  }

  lemma ProcAllNoQuotes(cs: seq<Node>)
    requires ProcAll(true, cs).Ok?
    requires forall i :: 0 <= i < |cs| ==> !IsQuote(cs[i])
    ensures forall i :: 0 <= i < |ProcAll(true, cs).value| ==>
      ProcAll(true, cs).value[i] != "``" && ProcAll(true, cs).value[i] != "''"
  {
    var ps := ProcAll(true, cs).value;
    forall i | 0 <= i < |ps| ensures ps[i] != "``" && ps[i] != "''" {
      assert Ok(ps[i]) == Proc(true, cs[i]);
      SimplifyNotQuote(cs[i].text);
    }
  }

  /** `simplify_tag` never turns a tag into a quote: what it cuts down to is uppercase letters. */
  lemma SimplifyNotQuote(t: string)
    requires t != "``" && t != "''"
    ensures SimplifyTag(t) != "``" && SimplifyTag(t) != "''"
  {
    if SimplifyTag(t) != t {
      assert IsUppers(SimplifyTag(t));
    }
  }

  /**
   * The quotes are dropped before `proc` runs, so with `remove_coindex` a quote tag that
   * carries an index comes out as a quote: `(S (``-1 x))` gives `S => ``` even with `remove_quotes`.
   */
  lemma PatternIndexedQuote(tag: string, q: string, d: string, w: Node)
    requires q == "``" || q == "''"
    requires IsDigits(d)
    ensures Pattern(List([Str(tag), List([Str(q + "-" + d), w])]), false, true, false) == Ok((RemoveCoindex(tag), [q]))
  {
    var qd := q + "-" + d;
    var kid := List([Str(qd), w]);
    var x := List([Str(tag), kid]);
    assert Unwrap(x) == x;
    assert Rest(x) == [kid];
    assert Heads([kid]) == Ok([Str(qd)]) by {
      assert [kid][1..] == [] && [Str(qd)] + [] == [Str(qd)];
    }
    assert !IsQuote(Str(qd)) by {
      assert |qd| > 2;
    }
    assert DropQuotes([Str(qd)]) == [Str(qd)] + DropQuotes([]);
    assert PatternChildren(x, true, false) == Ok([Str(qd)]);
    RemoveCoindexStrips(q, d, "");
    assert q + "-" + d + "" == qd && q + "" == q;
    assert ProcAll(false, [Str(qd)]) == Ok([q] + []);
    assert [q] + [] == [q];
  }

  /** The outer wrapper of a Treebank tree is transparent: a one-element list is read as its element. */
  lemma PatternUnwrap(y: Node, removeFunctions: bool, removeQuotes: bool, removeInitialCC: bool)
    requires !(y.List? && |y.items| == 1)
    ensures Pattern(List([y]), removeFunctions, removeQuotes, removeInitialCC)
            == Pattern(y, removeFunctions, removeQuotes, removeInitialCC)
  {
  }

  /**
   * A one-element list holding a string is unwrapped to that string, whose characters then
   * serve as label and children: `(NP)` gives `N => P`.
   */
  lemma PatternLoneLabel()
    ensures Pattern(List([Str("NP")]), true, false, false) == Ok(("N", ["P"]))
  {
    var y := Str("NP");
    assert Rest(y) == [Str("P")];
    assert [Str("P")][1..] == [] && [Str("P")] + [] == [Str("P")];
    assert Elem(Str("P"), 0) == Str("P");
    assert Heads([Str("P")]) == Ok([Str("P")]);
    assert First(y) == Ok(Str("N"));
    assert SimplifyTag("N") == "N" by {
      UpperRunAt("N", 1);
      assert "N"[1..] == "";
    }
    assert SimplifyTag("P") == "P" by {
      UpperRunAt("P", 1);
      assert "P"[1..] == "";
    }
    assert Unwrap(List([y])) == y;
    assert PatternChildren(y, false, false) == Ok([Str("P")]);
    assert ProcAll(true, [Str("P")]) == Ok(["P"] + []);
    assert ["P"] + [] == ["P"];
  }
}
