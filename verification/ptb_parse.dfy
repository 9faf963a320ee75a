/** ptb.py's `parse`: a shift/reduce loop over an explicit stack of tokens and reduced values. */
module PtbParse {
  import opened Chars
  import opened Outcomes
  import opened PtbLex
  import opened PtbSymbol
  import opened PtbTree

  /** A stack entry: an LPAREN token, a STRING token, or a value a reduction pushed back. */
  datatype Entry = OpenEntry | StrEntry(value: string) | WordEntry(w: Word) | ExprEntry(e: Texpr)

  /** What a popped entry becomes in a cell: a STRING token is decoded as a Symbol. */
  function HeadOf(en: Entry): Head
    requires en != OpenEntry
  {
    match en
    case StrEntry(v) => SymbolHead(Decode(v))
    case WordEntry(w) => WordHead(w)
    case ExprEntry(e) => ExprHead(e)
  }

  predicate NoOpen(items: seq<Entry>) {
    forall i :: 0 <= i < |items| ==> items[i] != OpenEntry
  }

  /** Reference definition: the cells holding the heads of `items` in source order, ending in `tail`. */
  function Chain(items: seq<Entry>, tail: Texpr): Texpr
    requires NoOpen(items)
  {
    if items == [] then tail else Cell(HeadOf(items[0]), Chain(items[1..], tail))
  }

  /** Index of the topmost LPAREN on the stack, or -1. */
  function LastOpen(stack: seq<Entry>): (j: int)
    ensures -1 <= j < |stack|
    ensures j >= 0 ==> stack[j] == OpenEntry
    ensures forall k :: j < k < |stack| ==> stack[k] != OpenEntry
  {
    if stack == [] then -1
    else if stack[|stack| - 1] == OpenEntry then |stack| - 1
    else LastOpen(stack[..|stack| - 1])
  }

  /**
   * The `while` loop of a reduction: pop entries onto the front of `tail` until an
   * LPAREN is on top, then pop it too. None stands for the IndexError of `stack[-1]`
   * on an empty stack.
   */
  function PopChain(stack: seq<Entry>, tail: Texpr): Option<(seq<Entry>, Texpr)>
    decreases |stack|
  {
    if stack == [] then None
    else if stack[|stack| - 1] == OpenEntry then Some((stack[..|stack| - 1], tail))
    else PopChain(stack[..|stack| - 1], Cell(HeadOf(stack[|stack| - 1]), tail))
  }

  /**
   * The test for `( A B` on top of the stack, evaluated as Python's `and` does: None
   * stands for the IndexError of `stack[-1]`, `stack[-2]` or `stack[-3]` on a stack too short.
   */
  function WordShape(stack: seq<Entry>): (r: Option<bool>)
    ensures r == Some(true) ==> |stack| >= 3 && stack[|stack| - 1].StrEntry? && stack[|stack| - 2].StrEntry?
  {
    var n := |stack|;
    if n == 0 then None
    else if !stack[n - 1].StrEntry? then Some(false)
    else if n < 2 then None
    else if !stack[n - 2].StrEntry? then Some(false)
    else if n < 3 then None
    else Some(stack[n - 3] == OpenEntry)
  }

  datatype StepResult = StepFail | Stepped(stack: seq<Entry>, yielded: Option<Texpr>)

  /** One iteration of the token loop of `parse`. */
  function Step(stack: seq<Entry>, tok: Token): StepResult {
    match tok
    case LParen => Stepped(stack + [OpenEntry], None)
    case Atom(v) => Stepped(stack + [StrEntry(v)], None)
    case RParen =>
      match WordShape(stack)
      case None => StepFail
      case Some(isWord) =>
        if isWord then
          var n := |stack|;
          Stepped(stack[..n - 3] + [WordEntry(Word(stack[n - 1].value, stack[n - 2].value))], None)
        else
          match PopChain(stack, Nil)
          case None => StepFail
          case Some((rest, chain)) =>
            if rest == [] then Stepped([], Some(chain)) else Stepped(rest + [ExprEntry(chain)], None)
  }

  /** What the `parse` generator produces: the trees yielded, then whether it raised IndexError. */
  datatype Parsed = Parsed(trees: seq<Texpr>, failed: bool)

  function Prepend(trees: seq<Texpr>, p: Parsed): Parsed {
    Parsed(trees + p.trees, p.failed)
  }

  /** The token loop of `parse`, from a given stack. */
  function Run(stack: seq<Entry>, toks: seq<Token>): Parsed
    decreases |toks|
  {
    if toks == [] then Parsed([], false)
    else match Step(stack, toks[0])
      case StepFail => Parsed([], true)
      case Stepped(next, y) =>
        Prepend(if y.Some? then [y.value] else [], Run(next, toks[1..]))
  }

  /** `parse`: the trees produced from a source text. */
  function ParseSource(src: Source): Parsed {
    Run([], LexLines(AsLines(src)))
  }

  /** `parse`, with the stack as a sequence that the loop pushes to and pops from. */
  method Parse(src: Source) returns (trees: seq<Texpr>, failed: bool)
    ensures Parsed(trees, failed) == ParseSource(src)
  {
    var toks := Lex(src);
    var stack: seq<Entry> := [];
    trees, failed := [], false;
    var rest := toks;
    assert trees + Run(stack, rest).trees == Run(stack, rest).trees;
    while rest != []
      invariant Prepend(trees, Run(stack, rest)) == Run([], toks)
      decreases |rest|
    {
      var next, y, ok := Consume(stack, rest[0]);
      if !ok {
        assert trees + [] == trees;
        failed := true;
        return;
      }
      if y.Some? {
        PrependAppend(trees, y.value, Run(next, rest[1..]));
        trees := trees + [y.value];
      } else {
        assert [] + Run(next, rest[1..]).trees == Run(next, rest[1..]).trees;
      }
      stack := next;
      rest := rest[1..];
    }
  }

  /**
   * One iteration of the token loop: push `(` or an atom; on `)`, build a Word or reduce
   * back to the nearest `(`, yielding the result when the stack is left empty.
   */
  method Consume(stack: seq<Entry>, tok: Token) returns (next: seq<Entry>, yielded: Option<Texpr>, ok: bool)
    ensures ok <==> Step(stack, tok).Stepped?
    ensures ok ==> Step(stack, tok) == Stepped(next, yielded)
  {
    next, yielded, ok := stack, None, true;
    if tok == LParen {
      next := stack + [OpenEntry];
    } else if tok.Atom? {
      next := stack + [StrEntry(tok.value)];
    } else {
      var shape := WordShape(stack);
      if shape.None? {
        ok := false;
        return;
      }
      if shape.value {
        var n := |stack|;
        var w := Word(stack[n - 1].value, stack[n - 2].value);
        next := stack[..n - 3] + [WordEntry(w)];
      } else {
        var below, chain, popped := Reduce(stack);
        if !popped {
          ok := false;
          return;
        }
        if below == [] {
          next, yielded := [], Some(chain);
        } else {
          next := below + [ExprEntry(chain)];
        }
      }
    }
  }

  /**
   * A reduction: pop entries onto the front of a chain until a `(` is on top, decoding
   * atoms as Symbols, then pop the `(`. `ok` is false for the IndexError of popping an empty stack.
   */
  method Reduce(stack: seq<Entry>) returns (below: seq<Entry>, chain: Texpr, ok: bool)
    ensures ok <==> PopChain(stack, Nil).Some?
    ensures ok ==> PopChain(stack, Nil) == Some((below, chain))
  {
    below, chain := stack, Nil;
    while true
      invariant PopChain(below, chain) == PopChain(stack, Nil)
      decreases |below|
    {
      if below == [] {
        return below, chain, false;
      }
      var top := below[|below| - 1];
      if top == OpenEntry {
        break;
      }
      var head;
      if top.StrEntry? {
        var sym := NewSymbol(top.value);
        head := SymbolHead(sym);
      } else {
        head := HeadOf(top);
      }
      chain := Cell(head, chain);
      below := below[..|below| - 1];
    }
    below := below[..|below| - 1];
    ok := true;
  }

  lemma PrependAppend(trees: seq<Texpr>, t: Texpr, p: Parsed)
    ensures Prepend(trees, Prepend([t], p)) == Prepend(trees + [t], p)
  {
    assert trees + ([t] + p.trees) == (trees + [t]) + p.trees;
  }

  lemma {:induction false} ChainSnoc(items: seq<Entry>, x: Entry, tail: Texpr)
    requires NoOpen(items) && x != OpenEntry
    ensures NoOpen(items + [x])
    ensures Chain(items + [x], tail) == Chain(items, Cell(HeadOf(x), tail))
  {
    if items != [] {
      assert (items + [x])[1..] == items[1..] + [x];
      ChainSnoc(items[1..], x, tail);
    } else {
      assert items + [x] == [x];
    }
  }

  /** A reduction succeeds exactly when a `(` is on the stack. */
  lemma {:induction false} PopChainSome(stack: seq<Entry>, tail: Texpr)
    ensures PopChain(stack, tail).Some? <==> OpenEntry in stack
    decreases |stack|
  {
    if stack != [] {
      var n := |stack|;
      var init := stack[..n - 1];
      assert stack == init + [stack[n - 1]];
      if stack[n - 1] != OpenEntry {
        PopChainSome(init, Cell(HeadOf(stack[n - 1]), tail));
        assert OpenEntry in stack <==> OpenEntry in init;
      }
    }
  }

  /** A reduction pops exactly back to the topmost `(`, and the chain it builds lists the popped entries in source order. */
  lemma {:induction false} PopChainNearest(stack: seq<Entry>, tail: Texpr)
    requires OpenEntry in stack
    ensures var j := LastOpen(stack);
      j >= 0 && NoOpen(stack[j + 1..]) && PopChain(stack, tail) == Some((stack[..j], Chain(stack[j + 1..], tail)))
    decreases |stack|
  {
    var n := |stack|;
    var last := stack[n - 1];
    if last == OpenEntry {
      assert stack[n..] == [];
    } else {
      var init := stack[..n - 1];
      OpenBelowTop(stack);
      PopChainNearest(init, Cell(HeadOf(last), tail));
      var j := LastOpen(init);
      SnocSlices(stack, j);
      ChainSnoc(init[j + 1..], last, tail);
    }
  }

  lemma OpenBelowTop(stack: seq<Entry>)
    requires OpenEntry in stack && stack[|stack| - 1] != OpenEntry
    ensures OpenEntry in stack[..|stack| - 1]
  {
    var k :| 0 <= k < |stack| && stack[k] == OpenEntry;
    assert stack[..|stack| - 1][k] == OpenEntry;
  }

  lemma SnocSlices(stack: seq<Entry>, j: int)
    requires 0 <= j < |stack| - 1
    ensures stack[j + 1..] == stack[..|stack| - 1][j + 1..] + [stack[|stack| - 1]]
    ensures stack[..|stack| - 1][..j] == stack[..j]
  {
  }

  /** A `)` closing exactly `( A B` replaces those three entries with Word(word=B, pos=A) and yields nothing. */
  lemma StepWord(below: seq<Entry>, a: string, b: string)
    ensures Step(below + [OpenEntry, StrEntry(a), StrEntry(b)], RParen)
            == Stepped(below + [WordEntry(Word(b, a))], None)
  {
    var stack := below + [OpenEntry, StrEntry(a), StrEntry(b)];
    assert stack[..|stack| - 3] == below;
  }

  /**
   * Any other `)` pops back to the nearest `(` and builds the chain of the popped entries
   * in source order; it is yielded when the stack is then empty and pushed back otherwise.
   */
  lemma StepGroup(below: seq<Entry>, items: seq<Entry>)
    requires NoOpen(items)
    requires !(|items| == 2 && items[0].StrEntry? && items[1].StrEntry?)
    ensures Step(below + [OpenEntry] + items, RParen)
            == if below == [] then Stepped([], Some(Chain(items, Nil)))
               else Stepped(below + [ExprEntry(Chain(items, Nil))], None)
  {
    GroupNotWord(below, items);
    GroupPops(below, items);
  }

  /** A stack ending in `(` and then anything but two atoms does not have the shape of a Word. */
  lemma GroupNotWord(below: seq<Entry>, items: seq<Entry>)
    requires NoOpen(items)
    requires !(|items| == 2 && items[0].StrEntry? && items[1].StrEntry?)
    ensures WordShape(below + [OpenEntry] + items) == Some(false)
  {
    var stack := below + [OpenEntry] + items;
    var n := |stack|;
    if |items| == 0 {
      assert stack[n - 1] == OpenEntry;
    } else if |items| == 1 {
      assert stack[n - 1] == items[0] && stack[n - 2] == OpenEntry;
    } else if |items| == 2 {
      assert stack[n - 1] == items[1] && stack[n - 2] == items[0];
    } else {
      assert stack[n - 3] == items[|items| - 3];
    }
  }

  /** Popping back from the end of `below + [(] + items` stops exactly at that `(`. */
  lemma GroupPops(below: seq<Entry>, items: seq<Entry>)
    requires NoOpen(items)
    ensures PopChain(below + [OpenEntry] + items, Nil) == Some((below, Chain(items, Nil)))
  {
    var stack := below + [OpenEntry] + items;
    assert stack[|below|] == OpenEntry;
    assert forall k :: |below| < k < |stack| ==> stack[k] == items[k - |below| - 1];
    PopChainNearest(stack, Nil);
    assert LastOpen(stack) == |below|;
    assert stack[..|below|] == below;
    assert stack[|below| + 1..] == items;
  }

  /** A `)` fails with IndexError exactly when no `(` is on the stack. */
  lemma StepCloseFails(stack: seq<Entry>)
    ensures Step(stack, RParen).StepFail? <==> OpenEntry !in stack
  {
    PopChainSome(stack, Nil);
    var n := |stack|;
    if WordShape(stack) == Some(true) {
      assert stack[n - 3] == OpenEntry;
    } else if WordShape(stack).None? {
      assert forall k :: 0 <= k < n ==> stack[k].StrEntry?;
    }
  }

  /** Tokens with no `)` never yield nor fail: an unclosed `(` is silently dropped at end of input. */
  lemma {:induction false} UnclosedDropped(stack: seq<Entry>, toks: seq<Token>)
    requires forall i :: 0 <= i < |toks| ==> toks[i] != RParen
    ensures Run(stack, toks) == Parsed([], false)
    decreases |toks|
  {
    if toks != [] {
      UnclosedDropped(Step(stack, toks[0]).stack, toks[1..]);
    }
  }

  /**
   * Whether the tokens, starting `opens` parens deep above a bottom `(`, never close that
   * bottom `(`: the running depth never goes below zero.
   */
  predicate KeepsOpen(opens: nat, toks: seq<Token>)
    decreases |toks|
  {
    if toks == [] then true
    else if toks[0] == LParen then KeepsOpen(opens + 1, toks[1..])
    else if toks[0] == RParen then opens > 0 && KeepsOpen(opens - 1, toks[1..])
    else KeepsOpen(opens, toks[1..])
  }

  /** The number of `(` entries on a stack. */
  function Opens(stack: seq<Entry>): nat {
    multiset(stack)[OpenEntry]
  }

  lemma OpensAppend(a: seq<Entry>, b: seq<Entry>)
    ensures Opens(a + b) == Opens(a) + Opens(b)
  {
    assert multiset(a + b) == multiset(a) + multiset(b);
  }

  /**
   * A token that does not close the bottom `(` leaves it at the bottom, yields nothing,
   * and moves the count of `(` above it up or down by the token.
   */
  lemma StepKeepsOpen(stack: seq<Entry>, t: Token)
    requires stack != [] && stack[0] == OpenEntry
    requires t == RParen ==> Opens(stack[1..]) > 0
    ensures Step(stack, t).Stepped? && Step(stack, t).yielded.None?
    ensures Step(stack, t).stack != [] && Step(stack, t).stack[0] == OpenEntry
    ensures Opens(Step(stack, t).stack[1..])
            == Opens(stack[1..]) + (if t == LParen then 1 else if t == RParen then -1 else 0)
  {
    if t != RParen {
      ShiftKeepsOpen(stack, t);
    } else if WordShape(stack) == Some(true) {
      CloseWordKeepsOpen(stack);
    } else {
      CloseGroupKeepsOpen(stack);
    }
  }

  lemma ShiftKeepsOpen(stack: seq<Entry>, t: Token)
    requires stack != [] && stack[0] == OpenEntry && t != RParen
    ensures Step(stack, t) == Stepped(stack + [Shifted(t)], None)
    ensures Opens((stack + [Shifted(t)])[1..]) == Opens(stack[1..]) + (if t == LParen then 1 else 0)
  {
    var x := Shifted(t);
    assert (stack + [x])[1..] == stack[1..] + [x];
    OpensAppend(stack[1..], [x]);
  }

  lemma CloseWordKeepsOpen(stack: seq<Entry>)
    requires stack != [] && stack[0] == OpenEntry && Opens(stack[1..]) > 0
    requires WordShape(stack) == Some(true)
    ensures Step(stack, RParen).Stepped? && Step(stack, RParen).yielded.None?
    ensures Step(stack, RParen).stack != [] && Step(stack, RParen).stack[0] == OpenEntry
    ensures Opens(Step(stack, RParen).stack[1..]) == Opens(stack[1..]) - 1
  {
    var n := |stack|;
    var a, b := stack[n - 2], stack[n - 1];
    var w := WordEntry(Word(b.value, a.value));
    assert stack[n - 3] == OpenEntry;
    var mid := stack[1..n - 3];
    assert n > 3;
    assert stack[1..] == mid + [OpenEntry, a, b];
    OpensAppend(mid, [OpenEntry, a, b]);
    assert Opens([OpenEntry, a, b]) == 1;
    var next := stack[..n - 3] + [w];
    assert Step(stack, RParen) == Stepped(next, None);
    assert next[1..] == mid + [w];
    OpensAppend(mid, [w]);
  }

  lemma CloseGroupKeepsOpen(stack: seq<Entry>)
    requires stack != [] && stack[0] == OpenEntry && Opens(stack[1..]) > 0
    requires WordShape(stack) != Some(true)
    ensures Step(stack, RParen).Stepped? && Step(stack, RParen).yielded.None?
    ensures Step(stack, RParen).stack != [] && Step(stack, RParen).stack[0] == OpenEntry
    ensures Opens(Step(stack, RParen).stack[1..]) == Opens(stack[1..]) - 1
  {
    var below, items := InnerOpen(stack);
    assert !(|items| == 2 && items[0].StrEntry? && items[1].StrEntry?);
    StepGroup(below, items);
    GroupOpens(below, items);
  }

  /** With a `(` above the bottom one, the stack splits at the topmost `(`, which is not the bottom. */
  lemma InnerOpen(stack: seq<Entry>) returns (below: seq<Entry>, items: seq<Entry>)
    requires stack != [] && Opens(stack[1..]) > 0
    ensures stack == below + [OpenEntry] + items && below != [] && below[0] == stack[0] && NoOpen(items)
  {
    var j := LastOpen(stack);
    assert OpenEntry in stack[1..];
    var k :| 0 <= k < |stack[1..]| && stack[1..][k] == OpenEntry;
    assert stack[k + 1] == OpenEntry;
    below, items := stack[..j], stack[j + 1..];
    assert stack == below + [OpenEntry] + items;
  }

  /** Replacing `( items` by one reduced entry removes exactly one `(` above the bottom. */
  lemma GroupOpens(below: seq<Entry>, items: seq<Entry>)
    requires below != [] && NoOpen(items)
    ensures forall e: Entry :: e != OpenEntry ==>
      Opens((below + [e])[1..]) == Opens((below + [OpenEntry] + items)[1..]) - 1
  {
    var mid := below[1..];
    assert OpenEntry !in items;
    assert Opens(items) == 0;
    assert (below + [OpenEntry] + items)[1..] == mid + ([OpenEntry] + items);
    OpensAppend(mid, [OpenEntry] + items);
    OpensAppend([OpenEntry], items);
    forall e: Entry | e != OpenEntry
      ensures Opens((below + [e])[1..]) == Opens((below + [OpenEntry] + items)[1..]) - 1
    {
      assert (below + [e])[1..] == mid + [e];
      OpensAppend(mid, [e]);
    }
  }

  /**
   * Input that never closes the bottom `(` yields nothing and raises nothing: a group left
   * open at the end of input is dropped silently, with everything read inside it.
   */
  lemma {:induction false} UnclosedGroupDropped(stack: seq<Entry>, toks: seq<Token>)
    requires stack != [] && stack[0] == OpenEntry
    requires KeepsOpen(Opens(stack[1..]), toks)
    ensures Run(stack, toks) == Parsed([], false)
    decreases |toks|
  {
    if toks != [] {
      StepKeepsOpen(stack, toks[0]);
      UnclosedGroupDropped(Step(stack, toks[0]).stack, toks[1..]);
    }
  }

  /** From the start of input: `(` followed by tokens that never close it, such as `(S (NP a) (VP b)`, gives nothing. */
  lemma UnclosedInputDropped(toks: seq<Token>)
    requires KeepsOpen(0, toks)
    ensures Run([], [LParen] + toks) == Parsed([], false)
  {
    var all := [LParen] + toks;
    assert all[0] == LParen && all[1..] == toks;
    assert [OpenEntry][1..] == [];
    assert Opens([]) == 0;
    UnclosedGroupDropped([OpenEntry], toks);
    assert [] + [OpenEntry] == [OpenEntry];
  }

  /** An entry at the bottom of the stack that is not `(` stays there, so nothing is ever yielded again. */
  lemma {:induction false} BlockedBottom(stack: seq<Entry>, toks: seq<Token>)
    requires stack != [] && stack[0] != OpenEntry
    ensures Run(stack, toks).trees == []
    decreases |toks|
  {
    if toks != [] {
      var r := Step(stack, toks[0]);
      if r.Stepped? {
        assert r.yielded.None? && r.stack != [] && r.stack[0] == stack[0] by {
          if toks[0] == RParen {
            var n := |stack|;
            if WordShape(stack) == Some(true) {
              assert n > 3 by {
                assert stack[n - 3] == OpenEntry;
              }
            } else {
              PopChainSome(stack, Nil);
              PopChainNearest(stack, Nil);
              var j := LastOpen(stack);
              assert j > 0;
            }
          }
        }
        BlockedBottom(r.stack, toks[1..]);
      }
    }
  }

  /** A top-level `(TAG word)` is reduced to a Word but never yielded, and blocks every later tree. */
  lemma TopLevelWordNeverYielded(tag: string, word: string, rest: seq<Token>)
    ensures Run([], [LParen, Atom(tag), Atom(word), RParen] + rest).trees == []
  {
    var toks := [LParen, Atom(tag), Atom(word), RParen] + rest;
    var s3 := [OpenEntry, StrEntry(tag), StrEntry(word)];
    StepWord([], tag, word);
    assert [] + s3 == s3;
    BlockedBottom([WordEntry(Word(word, tag))], rest);
    assert toks[3..][0] == RParen && toks[3..][1..] == rest;
    assert Step(s3, RParen) == Stepped([WordEntry(Word(word, tag))], None);
    assert Run(s3, toks[3..]) == Prepend([], Run([WordEntry(Word(word, tag))], rest));
    assert Run(s3, toks[3..]).trees == [];
    assert toks[2..][0] == Atom(word) && toks[2..][1..] == toks[3..];
    assert [OpenEntry, StrEntry(tag)] + [StrEntry(word)] == s3;
    assert Run([OpenEntry, StrEntry(tag)], toks[2..]).trees == [];
    assert toks[1..][0] == Atom(tag) && toks[1..][1..] == toks[2..];
    assert [OpenEntry] + [StrEntry(tag)] == [OpenEntry, StrEntry(tag)];
    assert Run([OpenEntry], toks[1..]).trees == [];
    assert toks[0] == LParen;
    assert [] + [OpenEntry] == [OpenEntry];
  }

  /** The cells of a reduced group: the first atom is decoded as the Symbol and the rest are its children, in order. */
  lemma GroupAccessors(items: seq<Entry>)
    requires NoOpen(items) && items != [] && items[0].StrEntry?
    ensures Chain(items, Nil).Cell?
    ensures SymbolOf(Chain(items, Nil)) == Some(Decode(items[0].value))
    ensures |Children(Chain(items, Nil))| == |items| - 1
    ensures forall i :: 0 <= i < |items| - 1 ==> Children(Chain(items, Nil))[i].head == HeadOf(items[i + 1])
  {
    var c := Chain(items, Nil);
    var more := items[1..];
    assert c == Cell(SymbolHead(Decode(items[0].value)), Chain(more, Nil));
    ChainCells(more);
    assert Children(c) == Cells(Chain(more, Nil));
    forall i | 0 <= i < |items| - 1 ensures Children(c)[i].head == HeadOf(items[i + 1]) {
      assert more[i] == items[i + 1];
    }
  }

  lemma {:induction false} ChainCells(items: seq<Entry>)
    requires NoOpen(items)
    ensures Length(Chain(items, Nil)) == |items|
    ensures forall i :: 0 <= i < |items| ==> Cells(Chain(items, Nil))[i].head == HeadOf(items[i])
  {
    if items != [] {
      ChainCells(items[1..]);
      var c := Chain(items, Nil);
      assert Cells(c) == [c] + Cells(c.tail);
      forall i | 0 < i < |items| ensures Cells(c)[i].head == HeadOf(items[i]) {
        assert Cells(c)[i] == Cells(c.tail)[i - 1];
        assert items[1..][i - 1] == items[i];
      }
    }
  }

  /** The entry a `(` or an atom is pushed as. */
  function Shifted(t: Token): Entry
    requires t != RParen
  {
    if t == LParen then OpenEntry else StrEntry(t.value)
  }

  /** Shifting `(` or an atom yields nothing and never fails. */
  lemma RunShift(stack: seq<Entry>, toks: seq<Token>)
    requires toks != [] && toks[0] != RParen
    ensures Run(stack, toks) == Run(stack + [Shifted(toks[0])], toks[1..])
  {
    var p := Run(stack + [Shifted(toks[0])], toks[1..]);
    assert [] + p.trees == p.trees;
  }

  /** The entries a run of `(` and atoms pushes, in order. */
  function Pushed(toks: seq<Token>): (r: seq<Entry>)
    requires forall i :: 0 <= i < |toks| ==> toks[i] != RParen
    ensures |r| == |toks|
    ensures forall i :: 0 <= i < |toks| ==> r[i] == Shifted(toks[i])
  {
    if toks == [] then [] else [Shifted(toks[0])] + Pushed(toks[1..])
  }

  /** Tokens with no `)` are pushed one by one onto the stack, yielding nothing. */
  lemma {:induction false} RunShifts(stack: seq<Entry>, pre: seq<Token>, post: seq<Token>)
    requires forall i :: 0 <= i < |pre| ==> pre[i] != RParen
    ensures Run(stack, pre + post) == Run(stack + Pushed(pre), post)
    decreases |pre|
  {
    if pre == [] {
      assert pre + post == post;
      assert stack + [] == stack;
    } else {
      var toks := pre + post;
      assert toks[0] == pre[0] && toks[1..] == pre[1..] + post;
      RunShift(stack, toks);
      RunShifts(stack + [Shifted(pre[0])], pre[1..], post);
      ConcatAssoc(stack, [Shifted(pre[0])], Pushed(pre[1..]));
    }
  }

  /** The tree `( (L (P w)) )` yields: one cell holding the L group, whose one child is the Word. */
  function WrappedTree(cat: string, pos: string, word: string): Texpr {
    Cell(ExprHead(Cell(SymbolHead(Decode(cat)), Cell(WordHead(Word(word, pos)), Nil))), Nil)
  }

  lemma WrappedCloseOuter(cat: string, pos: string, word: string)
    ensures var tree := WrappedTree(cat, pos, word);
      Run([OpenEntry, ExprEntry(tree.head.expr)], [RParen]) == Parsed([tree], false)
  {
    var tree := WrappedTree(cat, pos, word);
    var inner := tree.head.expr;
    StepGroup([], [ExprEntry(inner)]);
    assert [] + [OpenEntry] + [ExprEntry(inner)] == [OpenEntry, ExprEntry(inner)];
    assert [RParen][1..] == [];
    assert [tree] + [] == [tree];
  }

  lemma WrappedCloseGroup(cat: string, pos: string, word: string)
    ensures Run([OpenEntry, OpenEntry, StrEntry(cat), WordEntry(Word(word, pos))], [RParen, RParen])
            == Parsed([WrappedTree(cat, pos, word)], false)
  {
    var w := WordEntry(Word(word, pos));
    var inner := WrappedTree(cat, pos, word).head.expr;
    WrappedCloseOuter(cat, pos, word);
    StepGroup([OpenEntry], [StrEntry(cat), w]);
    assert [OpenEntry] + [OpenEntry] + [StrEntry(cat), w] == [OpenEntry, OpenEntry, StrEntry(cat), w];
    assert [StrEntry(cat), w][1..] == [w] && [w][1..] == [];
    assert Chain([w], Nil) == Cell(WordHead(Word(word, pos)), Chain([], Nil));
    assert Chain([StrEntry(cat), w], Nil) == Cell(SymbolHead(Decode(cat)), Chain([w], Nil));
    assert [OpenEntry] + [ExprEntry(inner)] == [OpenEntry, ExprEntry(inner)];
    assert [RParen, RParen][1..] == [RParen];
  }

  lemma WrappedCloseWord(cat: string, pos: string, word: string)
    ensures Run([OpenEntry, OpenEntry, StrEntry(cat), OpenEntry, StrEntry(pos), StrEntry(word)], [RParen, RParen, RParen])
            == Parsed([WrappedTree(cat, pos, word)], false)
  {
    var below := [OpenEntry, OpenEntry, StrEntry(cat)];
    WrappedCloseGroup(cat, pos, word);
    StepWord(below, pos, word);
    assert below + [OpenEntry, StrEntry(pos), StrEntry(word)]
        == [OpenEntry, OpenEntry, StrEntry(cat), OpenEntry, StrEntry(pos), StrEntry(word)];
    assert below + [WordEntry(Word(word, pos))] == [OpenEntry, OpenEntry, StrEntry(cat), WordEntry(Word(word, pos))];
    assert [RParen, RParen, RParen][1..] == [RParen, RParen];
  }

  /**
   * The Treebank's outer wrapper: `( (L (P w)) )` yields one tree whose only cell holds
   * the L group, whose Symbol is decoded from L and whose one child is the Word (w, P).
   */
  lemma WrappedSentence(cat: string, pos: string, word: string)
    ensures Run([], [LParen, LParen, Atom(cat), LParen, Atom(pos), Atom(word), RParen, RParen, RParen])
            == Parsed([WrappedTree(cat, pos, word)], false)
  {
    var toks := [LParen, LParen, Atom(cat), LParen, Atom(pos), Atom(word), RParen, RParen, RParen];
    var pre, post := toks[..6], toks[6..];
    assert toks == pre + post;
    RunShifts([], pre, post);
    var stack := [OpenEntry, OpenEntry, StrEntry(cat), OpenEntry, StrEntry(pos), StrEntry(word)];
    forall i | 0 <= i < 6 ensures Pushed(pre)[i] == stack[i] {
      assert pre[i] == toks[i];
    }
    assert [] + Pushed(pre) == stack;
    assert post == [RParen, RParen, RParen];
    WrappedCloseWord(cat, pos, word);
  }
}
