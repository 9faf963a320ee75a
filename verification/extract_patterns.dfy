/** The helpers of extract-patterns.py over the nested lists sexp.py reads. */
module ExtractPatterns {
  import opened Outcomes
  import opened Sexp

  /**
   * A termination measure for the walk of `get_verb`, which also steps into the
   * one-character strings of a string.
   */
  function Size(x: Node): (n: nat)
    ensures n >= 1
  {
    match x
    case Str(s) => if |s| <= 1 then 1 else 2 * |s|
    case List(items) => 1 + SumSize(items)
  }

  function SumSize(cs: seq<Node>): (n: nat)
    ensures n >= 1
  {
    if cs == [] then 1 else Size(cs[0]) + SumSize(cs[1..])
  }

  lemma {:induction false} SumSizeChars(cs: seq<Node>)
    requires forall i :: 0 <= i < |cs| ==> cs[i].Str? && |cs[i].text| == 1
    ensures SumSize(cs) == |cs| + 1
  {
    if cs != [] {
      SumSizeChars(cs[1..]);
    }
  }

  lemma RestSize(x: Node)
    ensures SumSize(Rest(x)) <= Size(x)
  {
    match x
    case Str(s) =>
      SumSizeChars(Rest(x));
    case List(items) =>
      if items != [] {
        assert Rest(x) == items[1..];
      }
  }

  /** `c[0][0]`: the first element of the first element. */
  function HeadChar(c: Node): Result<Node> {
    match First(c)
    case Err(e) => Err(e)
    case Ok(h) => First(h)
  }

  /** Whether `c[0][0] == 'V'`. */
  predicate IsVerbal(c: Node) {
    HeadChar(c) == Ok(Str("V"))
  }

  /**
   * `get_verb`: on a terminal, its word when the tag starts with `V`; otherwise the verb of
   * the last child whose label starts with `V` (which may be None), or None. The `c[0][0]`
   * lookups raise IndexError on an empty string or list.
   */
  function GetVerb(x: Node): Result<Option<string>>
    decreases Size(x), 2
  {
    if IsTerminal(x) then
      match HeadChar(x)
      case Err(e) => Err(e)
      case Ok(h) => Ok(if h == Str("V") then Some(Elem(x, 1).text) else None)
    else
      RestSize(x);
      match VerbsOf(Rest(x))
      case Err(e) => Err(e)
      case Ok(vs) => Ok(if vs == [] then None else vs[|vs| - 1])
  }

  /** `[get_verb(c) for c in cs if c[0][0] == 'V']`, failing at the first error. */
  function VerbsOf(cs: seq<Node>): Result<seq<Option<string>>>
    decreases SumSize(cs), 1
  {
    if cs == [] then Ok([])
    else match HeadChar(cs[0])
      case Err(e) => Err(e)
      case Ok(h) =>
        if h == Str("V") then
          match GetVerb(cs[0])
          case Err(e) => Err(e)
          case Ok(v) =>
            match VerbsOf(cs[1..])
            case Err(e) => Err(e)
            case Ok(vs) => Ok([v] + vs)
        else VerbsOf(cs[1..])
  }

  /** On a leaf `(tag word)`: the word exactly when the tag starts with `V`; an empty tag raises IndexError. */
  lemma GetVerbLeaf(tag: string, word: string)
    ensures GetVerb(List([Str(tag), Str(word)]))
            == if tag == "" then Err(IndexError) else Ok(if tag[0] == 'V' then Some(word) else None)
  {
    var x := List([Str(tag), Str(word)]);
    assert IsTerminal(x);
    if tag != "" {
      assert HeadChar(x) == Ok(Str([tag[0]]));
      assert Str([tag[0]]) == Str("V") <==> tag[0] == 'V';
    }
  }

  lemma {:induction false} VerbsOfChars(cs: seq<Node>)
    requires forall i :: 0 <= i < |cs| ==> cs[i].Str? && |cs[i].text| == 1
    ensures VerbsOf(cs).Ok?
    ensures forall i :: 0 <= i < |VerbsOf(cs).value| ==> VerbsOf(cs).value[i] == None
  {
    if cs != [] {
      var c := cs[0];
      assert First(c) == Ok(Str([c.text[0]])) && [c.text[0]] == c.text;
      assert HeadChar(c) == Ok(c);
      if c == Str("V") {
        assert !IsTerminal(c);
        assert Rest(c) == [];
        assert GetVerb(c) == Ok(None);
      }
      VerbsOfChars(cs[1..]);
    }
  }

  /**
   * On a string, Python indexes characters: a two-character string starting with `V` is a
   * terminal whose "word" is its second character, and any other string has no verb.
   */
  lemma GetVerbString(s: string)
    ensures GetVerb(Str(s)) == Ok(if |s| == 2 && s[0] == 'V' then Some([s[1]]) else None)
  {
    var x := Str(s);
    if |s| == 2 {
      assert HeadChar(x) == Ok(Str([s[0]]));
      assert Str([s[0]]) == Str("V") <==> s[0] == 'V';
    } else {
      VerbsOfChars(Rest(x));
    }
  }

  /** Children with labels, none starting with `V`, give no verbs. */
  lemma {:induction false} VerbsOfNone(cs: seq<Node>)
    requires forall i :: 0 <= i < |cs| ==> HeadChar(cs[i]).Ok? && !IsVerbal(cs[i])
    ensures VerbsOf(cs) == Ok([])
  {
    if cs != [] {
      VerbsOfNone(cs[1..]);
    }
  }

  /** The last verb collected is the verb of the last child whose label starts with `V`. */
  lemma {:induction false} VerbsOfLast(cs: seq<Node>, j: nat)
    requires j < |cs| && IsVerbal(cs[j])
    requires forall i :: j < i < |cs| ==> HeadChar(cs[i]).Ok? && !IsVerbal(cs[i])
    requires VerbsOf(cs).Ok?
    ensures GetVerb(cs[j]).Ok?
    ensures VerbsOf(cs).value != [] && VerbsOf(cs).value[|VerbsOf(cs).value| - 1] == GetVerb(cs[j]).value
  {
    if j == 0 {
      VerbsOfNone(cs[1..]);
    } else {
      VerbsOfLast(cs[1..], j - 1);
    }
  }

  /**
   * On a phrase, `get_verb` answers with the verb of its last child whose label starts
   * with `V` (which may itself be None), skipping the children after it.
   */
  lemma GetVerbLastChild(x: Node, j: nat)
    requires x.List? && !IsTerminal(x) && 1 <= j < |x.items|
    requires IsVerbal(x.items[j])
    requires forall i :: j < i < |x.items| ==> HeadChar(x.items[i]).Ok? && !IsVerbal(x.items[i])
    requires GetVerb(x).Ok?
    ensures GetVerb(x) == GetVerb(x.items[j])
  {
    var cs := Rest(x);
    assert cs == x.items[1..];
    VerbsOfLast(cs, j - 1);
  }

  /** A phrase with no child whose label starts with `V` has no verb. */
  lemma GetVerbNoVerbalChild(x: Node)
    requires x.List? && !IsTerminal(x)
    requires forall i :: 1 <= i < |x.items| ==> HeadChar(x.items[i]).Ok? && !IsVerbal(x.items[i])
    ensures GetVerb(x) == Ok(None)
  {
    var cs := Rest(x);
    assert forall i :: 0 <= i < |cs| ==> cs[i] == x.items[i + 1];
    VerbsOfNone(cs);
  }

  /** The verbs whose clauses are reported speech. */
  const ReportVerbs: seq<string> := ["say", "says", "said", "announced", "announce", "announces"]

  /** `isreportverb`: membership in the list; None is never a member. */
  predicate IsReportVerb(v: Option<string>) {
    v.Some? && v.value in ReportVerbs
  }

  /** Exactly the forms of "say" and "announce" listed, and never a missing verb. */
  lemma IsReportVerbExactly(v: Option<string>)
    ensures IsReportVerb(v) <==> (v.Some? && (v.value == "say" || v.value == "says" || v.value == "said"
                                 || v.value == "announced" || v.value == "announce" || v.value == "announces"))
  {
    if v.Some? && v.value in ReportVerbs {
      var i :| 0 <= i < |ReportVerbs| && ReportVerbs[i] == v.value;
      assert i in {0, 1, 2, 3, 4, 5};
    }
    if v.Some? && (v.value == "say" || v.value == "says" || v.value == "said"
      || v.value == "announced" || v.value == "announce" || v.value == "announces") {
      assert v.value == ReportVerbs[0] || v.value == ReportVerbs[1] || v.value == ReportVerbs[2]
        || v.value == ReportVerbs[3] || v.value == ReportVerbs[4] || v.value == ReportVerbs[5];
    }
  }

  /**
   * `format_constituent`: a terminal as `word/tag`; otherwise the label with its coindex
   * removed, followed by `/verb` when `get_verb` finds a reporting verb.
   */
  function FormatConstituent(x: Node): Result<string> {
    if IsTerminal(x) then Ok(Elem(x, 1).text + "/" + Elem(x, 0).text)
    else
      match First(x)
      case Err(e) => Err(e)
      case Ok(h) =>
        match h
        case List(_) => Err(TypeError)
        case Str(tag) =>
          var l := RemoveCoindex(tag);
          match GetVerb(x)
          case Err(e) => Err(e)
          case Ok(v) => Ok(if IsReportVerb(v) then l + "/" + v.value else l)
  }

  /** A leaf `(tag word)` is written `word/tag`. */
  lemma FormatLeaf(tag: string, word: string)
    ensures FormatConstituent(List([Str(tag), Str(word)])) == Ok(word + "/" + tag)
  {
    assert IsTerminal(List([Str(tag), Str(word)]));
  }

  /**
   * A phrase is written as its label without the coindex, and gains `/verb` exactly when
   * its verb is a reporting verb.
   */
  lemma FormatPhrase(tag: string, kids: seq<Node>)
    requires !IsTerminal(List([Str(tag)] + kids)) && GetVerb(List([Str(tag)] + kids)).Ok?
    ensures var v := GetVerb(List([Str(tag)] + kids)).value;
      FormatConstituent(List([Str(tag)] + kids))
      == Ok(RemoveCoindex(tag) + if IsReportVerb(v) then "/" + v.value else "")
  {
    var x := List([Str(tag)] + kids);
    var v := GetVerb(x).value;
    assert First(x) == Ok(Str(tag));
    if !IsReportVerb(v) {
      assert RemoveCoindex(tag) + "" == RemoveCoindex(tag);
    } else {
      assert RemoveCoindex(tag) + "/" + v.value == RemoveCoindex(tag) + ("/" + v.value);
    }
  }

  /** In `(VP-1 (VBD said) (SBAR x y))` the verb is `said`, from the only child labelled with a `V`. */
  lemma GetVerbReportedSpeech()
    ensures GetVerb(List([Str("VP-1"), List([Str("VBD"), Str("said")]), List([Str("SBAR"), Str("x"), Str("y")])]))
            == Ok(Some("said"))
  {
    var vbd := List([Str("VBD"), Str("said")]);
    var sbar := List([Str("SBAR"), Str("x"), Str("y")]);
    var x := List([Str("VP-1"), vbd, sbar]);
    GetVerbLeaf("VBD", "said");
    assert HeadChar(vbd) == Ok(Str(['V']));
    assert HeadChar(sbar) == Ok(Str(['S']));
    assert Rest(x) == [vbd, sbar];
    assert [sbar][1..] == [] && [vbd, sbar][1..] == [sbar];
    assert VerbsOf([sbar]) == VerbsOf([]);
    assert VerbsOf([vbd, sbar]) == Ok([Some("said")] + []);
    GetVerbLastChild(x, 1);
  }

  /** `(VP-1 (VBD said) (SBAR x y))` is written `VP/said`. */
  lemma FormatReportedSpeech()
    ensures FormatConstituent(List([Str("VP-1"), List([Str("VBD"), Str("said")]), List([Str("SBAR"), Str("x"), Str("y")])]))
            == Ok("VP/said")
  {
    var kids := [List([Str("VBD"), Str("said")]), List([Str("SBAR"), Str("x"), Str("y")])];
    assert [Str("VP-1")] + kids == [Str("VP-1"), List([Str("VBD"), Str("said")]), List([Str("SBAR"), Str("x"), Str("y")])];
    GetVerbReportedSpeech();
    FormatPhrase("VP-1", kids);
    RemoveCoindexStrips("VP", "1", "");
    assert "VP" + "-" + "1" + "" == "VP-1" && "VP" + "" == "VP";
    IsReportVerbExactly(Some("said"));
    assert "VP" + ("/" + "said") == "VP/said";
  }
}
