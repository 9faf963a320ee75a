/** The node-label decomposer of ptb.py (`Symbol`): `NP-SBJ-1=2` into label, tags and indices. */
module PtbSymbol {
  import opened Chars
  import opened Outcomes

  /** A decoded node label; `name` is the Python field `label` (a keyword in Dafny). */
  datatype Symbol = Symbol(name: string, tags: seq<string>, coindex: Option<string>, parindex: Option<string>)

  /** A character of the regex class `[^0-9=-]`. */
  predicate IsLabelChar(c: char) {
    !IsDigit(c) && c != '=' && c != '-'
  }

  /** Length of the leading run of label characters. */
  function LabelRun(s: string): (n: nat)
    ensures n <= |s|
    ensures forall k :: 0 <= k < n ==> IsLabelChar(s[k])
    ensures n == |s| || !IsLabelChar(s[n])
  {
    if s == [] || !IsLabelChar(s[0]) then 0 else 1 + LabelRun(s[1..])
  }

  /** Length of the leading run of digits. */
  function DigitRun(s: string): (n: nat)
    ensures n <= |s|
    ensures forall k :: 0 <= k < n ==> IsDigit(s[k])
    ensures n == |s| || !IsDigit(s[n])
  {
    if s == [] || !IsDigit(s[0]) then 0 else 1 + DigitRun(s[1..])
  }

  lemma {:induction false} LabelRunAt(s: string, m: nat)
    requires m <= |s|
    requires forall k :: 0 <= k < m ==> IsLabelChar(s[k])
    requires m == |s| || !IsLabelChar(s[m])
    ensures LabelRun(s) == m
  {
    if m > 0 {
      LabelRunAt(s[1..], m - 1);
    }
  }

  lemma {:induction false} DigitRunAt(s: string, m: nat)
    requires m <= |s|
    requires forall k :: 0 <= k < m ==> IsDigit(s[k])
    requires m == |s| || !IsDigit(s[m])
    ensures DigitRun(s) == m
  {
    if m > 0 {
      DigitRunAt(s[1..], m - 1);
    }
  }

  /** One match of the decomposition pattern: which named group matched, and its text. */
  datatype Piece = LabelPiece(text: string) | TagPiece(text: string) | ParPiece(text: string) | CoPiece(text: string)

  /**
   * The match the pattern finds at the start of `s`, with its length: the four
   * alternatives are tried in order, the `^`-anchored label only at the start of the
   * whole string.
   */
  function MatchAt(s: string, atStart: bool): (m: Option<(Piece, nat)>)
    requires s != []
    ensures m.Some? ==> 1 <= m.value.1 <= |s|
  {
    if atStart && IsLabelChar(s[0]) then
      var n := LabelRun(s);
      Some((LabelPiece(s[..n]), n))
    else if s[0] == '-' && |s| > 1 && IsLabelChar(s[1]) then
      var n := 1 + LabelRun(s[1..]);
      Some((TagPiece(s[1..n]), n))
    else if s[0] == '=' && |s| > 1 && IsDigit(s[1]) then
      var n := 1 + DigitRun(s[1..]);
      Some((ParPiece(s[1..n]), n))
    else if s[0] == '-' && |s| > 1 && IsDigit(s[1]) then
      var n := 1 + DigitRun(s[1..]);
      Some((CoPiece(s[1..n]), n))
    else None
  }

  /** The matches `finditer` finds in `s`, left to right; a position where none matches is skipped. */
  function Pieces(s: string, atStart: bool): seq<Piece>
    decreases |s|
  {
    if s == [] then []
    else match MatchAt(s, atStart)
      case None => Pieces(s[1..], false)
      case Some((pc, n)) => [pc] + Pieces(s[n..], false)
  }

  /** What the body of the `finditer` loop does with one match. */
  function Absorb(sym: Symbol, p: Piece): Symbol {
    match p
    case LabelPiece(t) => sym.(name := t)
    case TagPiece(t) => sym.(tags := sym.tags + [t])
    case ParPiece(t) => sym.(parindex := Some(t))
    case CoPiece(t) => sym.(coindex := Some(t))
  }

  function AbsorbAll(sym: Symbol, ps: seq<Piece>): Symbol
    decreases ps
  {
    if ps == [] then sym else AbsorbAll(Absorb(sym, ps[0]), ps[1..])
  }

  /** The Symbol built from label string `s`. */
  function Decode(s: string): Symbol {
    AbsorbAll(Symbol(s, [], None, None), Pieces(s, true))
  }

  /**
   * `Symbol.__init__`: start from the whole string, then overwrite or append per match
   * while scanning the text not yet consumed.
   */
  method NewSymbol(s: string) returns (sym: Symbol)
    ensures sym == Decode(s)
  {
    sym := Symbol(s, [], None, None);
    var rest, atStart := s, true;
    while rest != []
      invariant AbsorbAll(sym, Pieces(rest, atStart)) == Decode(s)
      decreases |rest|
    {
      var m := MatchAt(rest, atStart);
      if m.None? {
        rest := rest[1..];
      } else {
        AbsorbAllCons(sym, m.value.0, Pieces(rest[m.value.1..], false));
        sym := TakeMatch(sym, m.value.0);
        rest := rest[m.value.1..];
      }
      atStart := false;
    }
  }

  /** The body of the `finditer` loop: the group that matched overwrites or extends its field. */
  method TakeMatch(sym: Symbol, piece: Piece) returns (r: Symbol)
    ensures r == Absorb(sym, piece)
  {
    r := sym;
    if piece.LabelPiece? {
      r := r.(name := piece.text);
    } else if piece.TagPiece? {
      r := r.(tags := r.tags + [piece.text]);
    } else if piece.ParPiece? {
      r := r.(parindex := Some(piece.text));
    } else {
      r := r.(coindex := Some(piece.text));
    }
  }

  lemma AbsorbAllCons(sym: Symbol, x: Piece, ps: seq<Piece>)
    ensures AbsorbAll(sym, [x] + ps) == AbsorbAll(Absorb(sym, x), ps)
  {
    assert ([x] + ps)[0] == x && ([x] + ps)[1..] == ps;
  }

  /** A non-empty run of label characters: a well-formed label or tag. */
  predicate IsName(t: string) {
    t != [] && forall k :: 0 <= k < |t| ==> IsLabelChar(t[k])
  }

  /** A non-empty run of digits: a well-formed index. */
  predicate IsNumber(t: string) {
    t != [] && forall k :: 0 <= k < |t| ==> IsDigit(t[k])
  }

  predicate PieceOk(p: Piece) {
    match p
    case LabelPiece(t) => IsName(t)
    case TagPiece(t) => IsName(t)
    case ParPiece(t) => IsNumber(t)
    case CoPiece(t) => IsNumber(t)
  }

  /** Every match is well formed. */
  lemma {:induction false} PiecesOk(s: string, atStart: bool)
    ensures forall i :: 0 <= i < |Pieces(s, atStart)| ==> PieceOk(Pieces(s, atStart)[i])
    decreases |s|
  {
    if s != [] {
      match MatchAt(s, atStart)
      case None =>
        PiecesOk(s[1..], false);
      case Some((pc, n)) =>
        MatchOk(s, atStart);
        PiecesOk(s[n..], false);
        assert Pieces(s, atStart) == [pc] + Pieces(s[n..], false);
    }
  }

  lemma MatchOk(s: string, atStart: bool)
    requires s != [] && MatchAt(s, atStart).Some?
    ensures PieceOk(MatchAt(s, atStart).value.0)
  {
    var t := MatchAt(s, atStart).value.0.text;
    if atStart && IsLabelChar(s[0]) {
      assert forall k :: 0 <= k < |t| ==> t[k] == s[k];
    } else {
      assert forall k :: 0 <= k < |t| ==> t[k] == s[1..][k];
    }
  }

  /** Only the first match, at the start of the string, can be a label. */
  lemma {:induction false} PiecesShape(s: string, atStart: bool)
    ensures forall i :: 0 < i < |Pieces(s, atStart)| ==> !Pieces(s, atStart)[i].LabelPiece?
    ensures (|Pieces(s, atStart)| > 0 && Pieces(s, atStart)[0].LabelPiece?)
            <==> (atStart && s != [] && IsLabelChar(s[0]))
    ensures atStart && s != [] && IsLabelChar(s[0]) ==> Pieces(s, atStart)[0] == LabelPiece(s[..LabelRun(s)])
    decreases |s|
  {
    if s != [] {
      match MatchAt(s, atStart)
      case None =>
        PiecesShape(s[1..], false);
      case Some((pc, n)) =>
        PiecesShape(s[n..], false);
        assert Pieces(s, atStart) == [pc] + Pieces(s[n..], false);
    }
  }

  lemma {:induction false} AbsorbAllAppend(sym: Symbol, a: seq<Piece>, b: seq<Piece>)
    ensures AbsorbAll(sym, a + b) == AbsorbAll(AbsorbAll(sym, a), b)
    decreases a
  {
    if a == [] {
      assert a + b == b;
    } else {
      assert (a + b)[1..] == a[1..] + b;
      AbsorbAllAppend(Absorb(sym, a[0]), a[1..], b);
    }
  }

  /** The tag texts of the matches, in order. */
  function TagsOf(ps: seq<Piece>): seq<string> {
    if ps == [] then []
    else (if ps[0].TagPiece? then [ps[0].text] else []) + TagsOf(ps[1..])
  }

  /** Running the loop over matches appends the tags, in order of appearance. */
  lemma {:induction false} AbsorbAllTags(sym: Symbol, ps: seq<Piece>)
    ensures AbsorbAll(sym, ps).tags == sym.tags + TagsOf(ps)
    decreases ps
  {
    if ps != [] {
      AbsorbAllTags(Absorb(sym, ps[0]), ps[1..]);
      assert TagsOf(ps) == (if ps[0].TagPiece? then [ps[0].text] else []) + TagsOf(ps[1..]);
    }
  }

  /** A field changes only on a match of its own group: the label, the parindex and the coindex. */
  lemma {:induction false} AbsorbAllKeeps(sym: Symbol, ps: seq<Piece>)
    ensures (forall i :: 0 <= i < |ps| ==> !ps[i].LabelPiece?) ==> AbsorbAll(sym, ps).name == sym.name
    ensures (forall i :: 0 <= i < |ps| ==> !ps[i].ParPiece?) ==> AbsorbAll(sym, ps).parindex == sym.parindex
    ensures (forall i :: 0 <= i < |ps| ==> !ps[i].CoPiece?) ==> AbsorbAll(sym, ps).coindex == sym.coindex
    decreases ps
  {
    if ps != [] {
      AbsorbAllKeeps(Absorb(sym, ps[0]), ps[1..]);
    }
  }

  /** Well-formed matches leave well-formed indices. */
  lemma {:induction false} AbsorbAllIndices(sym: Symbol, ps: seq<Piece>)
    requires forall i :: 0 <= i < |ps| ==> PieceOk(ps[i])
    requires sym.parindex.Some? ==> IsNumber(sym.parindex.value)
    requires sym.coindex.Some? ==> IsNumber(sym.coindex.value)
    ensures AbsorbAll(sym, ps).parindex.Some? ==> IsNumber(AbsorbAll(sym, ps).parindex.value)
    ensures AbsorbAll(sym, ps).coindex.Some? ==> IsNumber(AbsorbAll(sym, ps).coindex.value)
    decreases ps
  {
    if ps != [] {
      assert PieceOk(ps[0]);
      AbsorbAllIndices(Absorb(sym, ps[0]), ps[1..]);
    }
  }

  /** The label is the leading run free of digits, `=` and `-`; without one it stays the whole string. */
  lemma DecodeName(s: string)
    ensures Decode(s).name == if s != [] && IsLabelChar(s[0]) then s[..LabelRun(s)] else s
  {
    var ps := Pieces(s, true);
    PiecesShape(s, true);
    if s != [] && IsLabelChar(s[0]) {
      assert AbsorbAll(Symbol(s, [], None, None), ps) == AbsorbAll(Symbol(s[..LabelRun(s)], [], None, None), ps[1..]);
      AbsorbAllKeeps(Symbol(s[..LabelRun(s)], [], None, None), ps[1..]);
    } else {
      AbsorbAllKeeps(Symbol(s, [], None, None), ps);
    }
  }

  /** Tags are non-empty runs free of digits, `=` and `-`; the indices, when present, are digit strings. */
  lemma DecodeParts(s: string)
    ensures forall i :: 0 <= i < |Decode(s).tags| ==> IsName(Decode(s).tags[i])
    ensures Decode(s).parindex.Some? ==> IsNumber(Decode(s).parindex.value)
    ensures Decode(s).coindex.Some? ==> IsNumber(Decode(s).coindex.value)
  {
    var ps := Pieces(s, true);
    PiecesOk(s, true);
    AbsorbAllTags(Symbol(s, [], None, None), ps);
    AbsorbAllIndices(Symbol(s, [], None, None), ps);
    TagsOfOk(ps);
  }

  lemma {:induction false} TagsOfOk(ps: seq<Piece>)
    requires forall i :: 0 <= i < |ps| ==> PieceOk(ps[i])
    ensures forall i :: 0 <= i < |TagsOf(ps)| ==> IsName(TagsOf(ps)[i])
  {
    if ps != [] {
      TagsOfOk(ps[1..]);
    }
  }

  /** A label with no digit, `=` or `-` decodes to itself, with no tags and no indices. */
  lemma PlainLabel(s: string)
    requires IsName(s)
    ensures Decode(s) == Symbol(s, [], None, None)
  {
    LabelRunAt(s, |s|);
    assert s[..|s|] == s && s[|s|..] == [];
    var start := Symbol(s, [], None, None);
    assert Pieces(s, true) == [LabelPiece(s)];
    assert [LabelPiece(s)][1..] == [];
    assert AbsorbAll(start, [LabelPiece(s)]) == AbsorbAll(Absorb(start, LabelPiece(s)), []);
  }

  /** The tags written out, each preceded by `-`. */
  function TagsText(tags: seq<string>): string {
    if tags == [] then "" else "-" + tags[0] + TagsText(tags[1..])
  }

  /** The canonical spelling: label, `-tag` for each tag, `=parindex`, `-coindex`. */
  function Serialize(sym: Symbol): string {
    sym.name + (TagsText(sym.tags) + IndexText(sym))
  }

  /** A Symbol whose parts are all well formed. */
  predicate Canonical(sym: Symbol) {
    && IsName(sym.name)
    && (forall i :: 0 <= i < |sym.tags| ==> IsName(sym.tags[i]))
    && (sym.parindex.Some? ==> IsNumber(sym.parindex.value))
    && (sym.coindex.Some? ==> IsNumber(sym.coindex.value))
  }

  lemma PiecesName(t: string, r: string)
    requires IsName(t)
    requires r == [] || !IsLabelChar(r[0])
    ensures Pieces(t + r, true) == [LabelPiece(t)] + Pieces(r, false)
  {
    var s := t + r;
    LabelRunAt(s, |t|);
    assert s[..|t|] == t && s[|t|..] == r;
  }

  lemma PiecesTag(t: string, r: string)
    requires IsName(t)
    requires r == [] || !IsLabelChar(r[0])
    ensures Pieces("-" + t + r, false) == [TagPiece(t)] + Pieces(r, false)
  {
    var s := "-" + t + r;
    LabelRunAt(s[1..], |t|);
    assert s[1..1 + |t|] == t && s[1 + |t|..] == r;
  }

  lemma PiecesNumber(mark: char, d: string, r: string)
    requires mark == '=' || mark == '-'
    requires IsNumber(d)
    requires r == [] || !IsDigit(r[0])
    ensures Pieces([mark] + d + r, false) == [if mark == '=' then ParPiece(d) else CoPiece(d)] + Pieces(r, false)
  {
    var s := [mark] + d + r;
    DigitRunAt(s[1..], |d|);
    assert s[1..1 + |d|] == d && s[1 + |d|..] == r;
  }

  lemma {:induction false} PiecesTags(tags: seq<string>, r: string)
    requires forall i :: 0 <= i < |tags| ==> IsName(tags[i])
    requires r == [] || r[0] == '-' || r[0] == '='
    ensures Pieces(TagsText(tags) + r, false) == TagPieces(tags) + Pieces(r, false)
  {
    if tags == [] {
      assert TagsText(tags) + r == r;
    } else {
      var t, more := tags[0], TagsText(tags[1..]);
      var rest := more + r;
      TagsTextStart(tags[1..], r);
      PiecesTag(t, rest);
      PiecesTags(tags[1..], r);
      calc {
        Pieces(TagsText(tags) + r, false);
        { ConcatAssoc("-" + t, more, r); }
        Pieces("-" + t + rest, false);
        [TagPiece(t)] + Pieces(rest, false);
        [TagPiece(t)] + (TagPieces(tags[1..]) + Pieces(r, false));
        { ConcatAssoc([TagPiece(t)], TagPieces(tags[1..]), Pieces(r, false)); }
        ([TagPiece(t)] + TagPieces(tags[1..])) + Pieces(r, false);
        TagPieces(tags) + Pieces(r, false);
      }
    }
  }

  /** Text following a run of tags starts with `-` or `=`, or is empty. */
  lemma TagsTextStart(tags: seq<string>, r: string)
    requires r == [] || r[0] == '-' || r[0] == '='
    ensures var x := TagsText(tags) + r; x == [] || x[0] == '-' || x[0] == '='
  {
    if tags == [] {
      assert TagsText(tags) + r == r;
    } else {
      assert (TagsText(tags) + r)[0] == TagsText(tags)[0] == '-';
    }
  }

  function TagPieces(tags: seq<string>): seq<Piece> {
    if tags == [] then [] else [TagPiece(tags[0])] + TagPieces(tags[1..])
  }

  lemma {:induction false} TagsOfTagPieces(tags: seq<string>)
    ensures TagsOf(TagPieces(tags)) == tags
    ensures forall i :: 0 <= i < |TagPieces(tags)| ==> TagPieces(tags)[i].TagPiece?
  {
    if tags != [] {
      TagsOfTagPieces(tags[1..]);
      assert TagPieces(tags)[1..] == TagPieces(tags[1..]);
    }
  }

  /** The matches for the `=parindex` and `-coindex` suffixes of the canonical spelling. */
  function IndexPieces(sym: Symbol): seq<Piece> {
    (if sym.parindex.Some? then [ParPiece(sym.parindex.value)] else [])
    + (if sym.coindex.Some? then [CoPiece(sym.coindex.value)] else [])
  }

  function IndexText(sym: Symbol): string {
    (if sym.parindex.Some? then "=" + sym.parindex.value else "")
    + (if sym.coindex.Some? then "-" + sym.coindex.value else "")
  }

  lemma IndexTextPieces(sym: Symbol)
    requires Canonical(sym)
    ensures Pieces(IndexText(sym), false) == IndexPieces(sym)
    ensures IndexText(sym) == [] || IndexText(sym)[0] == '-' || IndexText(sym)[0] == '='
  {
    var co := if sym.coindex.Some? then "-" + sym.coindex.value else "";
    var coPieces := if sym.coindex.Some? then [CoPiece(sym.coindex.value)] else [];
    assert Pieces(co, false) == coPieces by {
      if sym.coindex.Some? {
        PiecesNumber('-', sym.coindex.value, "");
        assert co == ['-'] + sym.coindex.value + "";
      }
    }
    if sym.parindex.Some? {
      PiecesNumber('=', sym.parindex.value, co);
      assert IndexText(sym) == ['='] + sym.parindex.value + co;
    } else {
      assert IndexText(sym) == co;
    }
  }

  lemma SerializePieces(sym: Symbol)
    requires Canonical(sym)
    ensures Pieces(Serialize(sym), true) == [LabelPiece(sym.name)] + (TagPieces(sym.tags) + IndexPieces(sym))
  {
    IndexTextPieces(sym);
    PiecesTags(sym.tags, IndexText(sym));
    var tail := TagsText(sym.tags) + IndexText(sym);
    assert tail == [] || !IsLabelChar(tail[0]);
    PiecesName(sym.name, tail);
    assert Serialize(sym) == sym.name + tail;
  }

  lemma AbsorbCanonical(sym: Symbol, s: string)
    ensures AbsorbAll(Symbol(s, [], None, None), [LabelPiece(sym.name)] + (TagPieces(sym.tags) + IndexPieces(sym))) == sym
  {
    var start := Symbol(s, [], None, None);
    var named := Symbol(sym.name, [], None, None);
    var ps := [LabelPiece(sym.name)] + (TagPieces(sym.tags) + IndexPieces(sym));
    assert AbsorbAll(start, ps) == AbsorbAll(named, TagPieces(sym.tags) + IndexPieces(sym)) by {
      assert ps[0] == LabelPiece(sym.name);
      assert ps[1..] == TagPieces(sym.tags) + IndexPieces(sym);
    }
    AbsorbAllAppend(named, TagPieces(sym.tags), IndexPieces(sym));
    TagsOfTagPieces(sym.tags);
    AbsorbAllTags(named, TagPieces(sym.tags));
    AbsorbAllKeeps(named, TagPieces(sym.tags));
    var tagged := AbsorbAll(named, TagPieces(sym.tags));
    assert tagged == Symbol(sym.name, sym.tags, None, None);
    var ip := IndexPieces(sym);
    assert AbsorbAll(start, ps) == AbsorbAll(tagged, ip);
    if ip != [] {
      var once := Absorb(tagged, ip[0]);
      assert AbsorbAll(tagged, ip) == AbsorbAll(once, ip[1..]);
      if ip[1..] != [] {
        assert sym.parindex.Some? && sym.coindex.Some?;
        assert ip[1..] == [CoPiece(sym.coindex.value)];
        assert AbsorbAll(once, ip[1..]) == AbsorbAll(Absorb(once, ip[1]), ip[1..][1..]);
        assert ip[1..][1..] == [];
      }
    }
  }

  /** Re-serializing a well-formed Symbol and decoding it again gives the same Symbol. */
  lemma DecodeSerialize(sym: Symbol)
    requires Canonical(sym)
    ensures Decode(Serialize(sym)) == sym
  {
    SerializePieces(sym);
    AbsorbCanonical(sym, Serialize(sym));
  }

  lemma SerializeTagged(t: string, tag: string, c: string)
    ensures Serialize(Symbol(t, [tag], Some(c), None)) == t + "-" + tag + "-" + c
  {
    var sym := Symbol(t, [tag], Some(c), None);
    assert TagsText([tag]) == "-" + tag by {
      assert TagsText([tag][1..]) == [];
    }
    assert IndexText(sym) == "-" + c;
    calc {
      Serialize(sym);
      t + (("-" + tag) + ("-" + c));
      { ConcatAssoc(t, "-" + tag, "-" + c); }
      t + ("-" + tag) + ("-" + c);
      { ConcatAssoc(t, "-", tag); }
      t + "-" + tag + ("-" + c);
      { ConcatAssoc(t + "-" + tag, "-", c); }
      t + "-" + tag + "-" + c;
    }
  }

  /** In `label-tag-c` the word after the first `-` is a tag and the number after the second the coindex. */
  lemma DecodeTagged(t: string, tag: string, c: string)
    requires IsName(t) && IsName(tag) && IsNumber(c)
    ensures Decode(t + "-" + tag + "-" + c) == Symbol(t, [tag], Some(c), None)
  {
    var sym := Symbol(t, [tag], Some(c), None);
    assert Canonical(sym);
    DecodeSerialize(sym);
    SerializeTagged(t, tag, c);
  }

  /** `NP-SBJ-1` decodes to label NP, tags [SBJ], coindex 1 and no parindex. */
  lemma DecodeExampleSubject()
    ensures Decode("NP-SBJ-1") == Symbol("NP", ["SBJ"], Some("1"), None)
  {
    assert IsName("NP") && IsName("SBJ") && IsNumber("1");
    DecodeTagged("NP", "SBJ", "1");
    assert "NP" + "-" + "SBJ" + "-" + "1" == "NP-SBJ-1";
  }

  lemma PiecesParTail(p: string)
    requires IsNumber(p)
    ensures Pieces("=" + p, false) == [ParPiece(p)]
  {
    PiecesNumber('=', p, []);
    assert ['='] + p + [] == "=" + p;
  }

  lemma PiecesCoTail(c: string, p: string)
    requires IsNumber(c) && IsNumber(p)
    ensures Pieces("-" + c + "=" + p, false) == [CoPiece(c), ParPiece(p)]
  {
    var eq := "=" + p;
    PiecesParTail(p);
    PiecesNumber('-', c, eq);
    assert ['-'] + c + eq == "-" + c + "=" + p;
  }

  lemma PiecesIndexed(t: string, c: string, p: string)
    requires IsName(t) && IsNumber(c) && IsNumber(p)
    ensures Pieces(t + "-" + c + "=" + p, true) == [LabelPiece(t), CoPiece(c), ParPiece(p)]
  {
    var dash := "-" + c + "=" + p;
    PiecesCoTail(c, p);
    PiecesName(t, dash);
    calc {
      t + dash;
      t + ((("-" + c) + "=") + p);
      { ConcatAssoc(t, ("-" + c) + "=", p); }
      (t + (("-" + c) + "=")) + p;
      { ConcatAssoc(t, "-" + c, "="); }
      (t + ("-" + c) + "=") + p;
      { ConcatAssoc(t, "-", c); }
      t + "-" + c + "=" + p;
    }
  }


  /**
   * The marker, not the position, decides the field: in `label-c=p` the `-` number is the
   * coindex and the `=` number the parindex.
   */
  lemma DecodeIndexed(t: string, c: string, p: string)
    requires IsName(t) && IsNumber(c) && IsNumber(p)
    ensures Decode(t + "-" + c + "=" + p) == Symbol(t, [], Some(c), Some(p))
  {
    PiecesIndexed(t, c, p);
    var w0 := Symbol(t + "-" + c + "=" + p, [], None, None);
    var w1 := Symbol(t, [], None, None);
    var w2 := Symbol(t, [], Some(c), None);
    assert AbsorbAll(w0, [LabelPiece(t), CoPiece(c), ParPiece(p)]) == AbsorbAll(w1, [CoPiece(c), ParPiece(p)]);
    assert AbsorbAll(w1, [CoPiece(c), ParPiece(p)]) == AbsorbAll(w2, [ParPiece(p)]);
    assert AbsorbAll(w2, [ParPiece(p)]) == AbsorbAll(Absorb(w2, ParPiece(p)), []);
  }

  /** `WHNP-2=3` has coindex 2 and parindex 3. */
  lemma DecodeExampleIndices()
    ensures Decode("WHNP-2=3") == Symbol("WHNP", [], Some("2"), Some("3"))
  {
    assert IsName("WHNP") && IsNumber("2") && IsNumber("3");
    DecodeIndexed("WHNP", "2", "3");
    assert "WHNP" + "-" + "2" + "=" + "3" == "WHNP-2=3";
  }

  /** With no leading run the label stays the whole string, while the `-NONE` run still counts as a tag. */
  lemma DecodeExampleNoLabel()
    ensures Decode("-NONE-") == Symbol("-NONE-", ["NONE"], None, None)
  {
    assert Pieces("-NONE-", true) == [TagPiece("NONE")] by {
      assert IsName("NONE");
      PiecesTag("NONE", "-");
      assert "-NONE-" == "-" + "NONE" + "-";
      assert Pieces("-", false) == Pieces([], false);
    }
    var n0 := Symbol("-NONE-", [], None, None);
    assert AbsorbAll(n0, [TagPiece("NONE")]) == AbsorbAll(Absorb(n0, TagPiece("NONE")), []);
  }
}
