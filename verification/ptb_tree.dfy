/** The values ptb.py's parser builds: `Word`, and `Texpr` cons cells with their accessors. */
module PtbTree {
  import opened Outcomes
  import opened PtbSymbol

  /** A leaf `(pos word)`. */
  datatype Word = Word(word: string, pos: string)

  /**
   * A cons cell, or `Nil` for Python's None at the end of a tail chain. Its head is
   * a decoded Symbol, a Word, or a nested chain (possibly `Nil`, which `()` produces).
   */
  datatype Texpr = Nil | Cell(head: Head, tail: Texpr)

  datatype Head = SymbolHead(symbol: Symbol) | WordHead(w: Word) | ExprHead(expr: Texpr)

  /** The cells along a tail chain, starting with `e` itself. */
  function Cells(e: Texpr): (r: seq<Texpr>)
    ensures |r| == Length(e)
    ensures forall i :: 0 <= i < |r| ==> r[i].Cell?
    ensures e.Cell? ==> r[0] == e
    ensures forall i :: 0 <= i < |r| - 1 ==> r[i + 1] == r[i].tail
    ensures r != [] ==> r[|r| - 1].tail == Nil
  {
    match e
    case Nil => []
    case Cell(_, t) => [e] + Cells(t)
  }

  /** Number of cells along the tail chain. */
  function Length(e: Texpr): nat {
    match e
    case Nil => 0
    case Cell(_, t) => 1 + Length(t)
  }

  /** `Texpr.symbol`: the head when it is a Symbol (the only head with a `label`). */
  function SymbolOf(e: Texpr): (r: Option<Symbol>)
    requires e.Cell?
    ensures r.Some? <==> e.head.SymbolHead?
    ensures r.Some? ==> r.value == e.head.symbol
  {
    if e.head.SymbolHead? then Some(e.head.symbol) else None
  }

  /** `Texpr.children`: when the head is a Symbol, every cell reached by following tail links. */
  function Children(e: Texpr): (r: seq<Texpr>)
    requires e.Cell?
    ensures e.head.SymbolHead? ==> |r| == Length(e) - 1
    ensures !e.head.SymbolHead? ==> r == []
    ensures forall i :: 0 <= i < |r| ==> r[i].Cell?
    ensures r != [] ==> r[0] == e.tail
    ensures forall i :: 0 <= i < |r| - 1 ==> r[i + 1] == r[i].tail
  {
    if SymbolOf(e).Some? then Cells(e.tail) else []
  }

  /** `Texpr.word`: the word of a Word head (the only head with a `pos`). */
  function WordOf(e: Texpr): (r: Option<string>)
    requires e.Cell?
    ensures r.Some? <==> e.head.WordHead?
    ensures r.Some? ==> r.value == e.head.w.word
  {
    if e.head.WordHead? then Some(e.head.w.word) else None
  }

  /** `Texpr.tag`: the part of speech of a Word head. */
  function TagOf(e: Texpr): (r: Option<string>)
    requires e.Cell?
    ensures r.Some? <==> e.head.WordHead?
    ensures r.Some? ==> r.value == e.head.w.pos
  {
    if e.head.WordHead? then Some(e.head.w.pos) else None
  }
}
