# ptb.py and sexp.py treebank readers, modelled in Dafny

This project models the two small readers in the repository for Penn Treebank bracketed parse
trees, `(LABEL child child ...)` with leaves written `(TAG WORD)`. It also models the helper
functions of the pattern extractor that works on those trees.

- **ptb.py** has these parts:
  - The lexer `lex` cuts text into `(`, `)` and atom tokens.
  - `Symbol` decodes a node label such as `NP-SBJ-1=2` into a label, function tags, a coindex
    and a parindex. Its constructor runs a regular-expression scan, modelled as a
    deterministic left-to-right scanner.
  - `parse` is a shift/reduce loop over an explicit stack. A `)` closing exactly `( A B` becomes
    a `Word`. Any other `)` pops back to the nearest `(` and builds a cons chain of `Texpr`
    cells, with every atom decoded as a `Symbol`. That chain is yielded when the stack is empty.
  - The `Texpr` accessors `symbol`, `children`, `word` and `tag` read the chain.
- **sexp.py** is a generic nested-list reader with these parts:
  - `tokenize` works line by line.
  - `balance_parens` keeps a depth counter.
  - `sexps` nests the groups.
  - `stringify` is its inverse printer.
  - `isterminal` and `terminals` extract the leaves.
  - `remove_coindex` and `simplify_tag` simplify labels.
  - `pattern` projects a node onto its children's labels.
- **extract-patterns.py** contributes `get_verb`, `isreportverb`, `format_constituent` and
  `remove_coindex`.

Python values become Dafny values:
- A generator becomes the finite sequence of what it yields, followed by a flag saying whether
  it then raised. Examples are `Parsed(trees, failed)`, `Grouped(groups, failed)` and
  `Read(items, failed)`.
- A function that can raise returns `Result`, with `IndexError`, `TypeError` or
  `AssertionError` as the error.
- Python's duck typing (`hasattr(head, 'label')`, `isinstance(x, str)`) becomes datatype
  constructors. A `Texpr` head is a `Symbol`, a `Word` or a nested chain. An s-expression
  value is `Str` or `List`.

The loops follow the code's own form:
- `lex` is the method `PtbLex.Lex`.
- The `finditer` loop of `Symbol.__init__` is the method `PtbSymbol.NewSymbol`.
- The stack machine of `parse` is the method `PtbParse.Parse`.
- The line loop of `tokenize` is the method `Sexp.Tokenize`.
- The counter loop of `balance_parens` is the method `Sexp.BalanceParens`.

Each method is proved equal to a recursive specification function. The properties are then
proved about those functions.

Files:
- `chars.dfy` holds the ASCII character classes and the `Option`/`Result` wrappers.
- `ptb_lex.dfy` holds `lex`.
- `ptb_symbol.dfy` holds `Symbol`.
- `ptb_tree.dfy` holds `Word`, `Texpr` and the accessors.
- `ptb_parse.dfy` holds `parse`.
- `sexp.dfy` holds sexp.py.
- `extract_patterns.dfy` holds the extract-patterns.py helpers.

Notable behaviours of the code, which the model keeps:
- A label with no leading label run is not an error. `Symbol.label` keeps the whole string:
  `-NONE-` decodes to label `-NONE-` with tag `NONE`.
- A repeated `=digits` or `-digits` is not an error. The last one wins.
- An unmatched `)` in `parse` raises IndexError, not a dedicated error. Trees yielded before
  it are kept.
- An unclosed `(` is silently dropped, with every group closed inside it.
- A bare atom at depth 0 is not rejected. It stays on the stack, and nothing after it is ever
  yielded.
- A top-level `(TAG word)` becomes a `Word` and is never yielded.
- The labelless wrapper `( (S ...) )` is not unwrapped. It yields a cell whose head is the S
  chain and whose tail is None.
- `pattern` compares children with the quote strings before applying `simplify_tag` or
  `remove_coindex`. With `remove_functions=False`, an indexed quote such as `` ``-1 `` therefore
  survives as a quote.

## Model

| member | source | states |
|---|---|---|
| PtbLex.Lex | ptb.py:37-55 | The tokens equal the per-line lexing of the input, with a lone string taken as one line and the lines' tokens concatenated in order |
| PtbLex.LexOneLine | ptb.py:49-55 | The scan of one line yields exactly the specification's tokens for that line |
| PtbLex.AtomEnd | ptb.py:36 | An atom match is the maximal non-empty run of non-space, non-paren characters from its start |
| PtbLex.LexLineWellFormed | ptb.py:49-55 | Every atom token of a line is non-empty and free of whitespace and parens |
| PtbLex.LexLinesWellFormed | ptb.py:44-55 | Every atom token of a multi-line input is non-empty and free of whitespace and parens |
| PtbLex.LexLineSpelling | ptb.py:49-55 | The tokens spelt out in order (`(`, `)`, atom text) give the line with all whitespace removed |
| PtbLex.LexLineAppend | ptb.py:49-55 | Lexing a line split at a token boundary is lexing the parts and concatenating |
| PtbLex.LexLineBlank | ptb.py:48-49 | A blank line yields no tokens, so the discarded `strip` makes no difference |
| PtbLex.LexUnlex | ptb.py:36-55 | Printing well-formed tokens separated by spaces and lexing again gives back the same tokens |
| PtbSymbol.LabelRun | ptb.py:59 | The label and tag alternatives take the maximal run of characters other than digits, `=` and `-` |
| PtbSymbol.DigitRun | ptb.py:59 | The parind and coind alternatives take the maximal run of digits |
| PtbSymbol.NewSymbol | ptb.py:60-73 | The `finditer` loop builds exactly the Symbol the left-to-right scan specifies |
| PtbSymbol.TakeMatch | ptb.py:66-73 | One match overwrites the label, appends a tag, or overwrites the parindex or the coindex, according to the group that matched |
| PtbSymbol.PiecesOk | ptb.py:59-65 | Every match is a well-formed label, tag, parindex or coindex piece |
| PtbSymbol.PiecesShape | ptb.py:59-65 | Only the first match can be a label, and the first match is the label exactly when the string starts with a character other than a digit, `=` or `-` |
| PtbSymbol.AbsorbAllTags | ptb.py:65-73 | Tags accumulate in order of appearance |
| PtbSymbol.AbsorbAllKeeps | ptb.py:65-73 | The label, the parindex and the coindex change only on a match of their own group |
| PtbSymbol.AbsorbAllIndices | ptb.py:65-73 | Well-formed matches leave digit-string indices |
| PtbSymbol.DecodeName | ptb.py:61-67 | `label` is the leading run free of digits, `=` and `-`, or the whole string when that run is empty |
| PtbSymbol.DecodeParts | ptb.py:59-73 | Every tag is non-empty and free of digits, `=` and `-`; the indices are non-empty digit strings |
| PtbSymbol.PlainLabel | ptb.py:59-67 | A label with no digit, `=` or `-` decodes to itself with no tags and no indices |
| PtbSymbol.DecodeSerialize | ptb.py:58-73 | Serialising a canonical Symbol (label, `-tag`s, `=parindex`, `-coindex`) and decoding it again gives the same Symbol |
| PtbSymbol.DecodeTagged | ptb.py:59-73 | For any well-formed label, tag and number, `label-tag-number` decodes to that label, that one tag and that coindex |
| PtbSymbol.DecodeIndexed | ptb.py:59-73 | For any well-formed label and numbers c and p, `label-c=p` decodes to coindex c and parindex p: the marker decides the field |
| PtbSymbol.DecodeExampleSubject | ptb.py:60-73 | `NP-SBJ-1` decodes to label NP, tags [SBJ], coindex 1, no parindex |
| PtbSymbol.DecodeExampleIndices | ptb.py:60-73 | `WHNP-2=3` decodes to label WHNP, no tags, coindex 2, parindex 3 |
| PtbSymbol.DecodeExampleNoLabel | ptb.py:60-73 | `-NONE-` keeps `-NONE-` as its label and has the tag NONE |
| PtbTree.SymbolOf | ptb.py:85-89 | `symbol()` is the head exactly when the head is a Symbol, otherwise None |
| PtbTree.Children | ptb.py:91-96 | For a Symbol head, the cells along the tail chain in order, one per remaining cell; otherwise none |
| PtbTree.WordOf | ptb.py:98-102 | `word()` is the Word's word exactly when the head is a Word |
| PtbTree.TagOf | ptb.py:104-108 | `tag()` is the Word's part of speech exactly when the head is a Word, otherwise None |
| PtbParse.LastOpen | ptb.py:131 | The position of the topmost `(` on the stack, with no `(` above it |
| PtbParse.WordShape | ptb.py:121-123 | The word test succeeds only on a stack of at least three entries with two atoms on top |
| PtbParse.Parse | ptb.py:111-140 | The stack loop yields exactly the trees, and fails exactly as, the reference run over the lexed tokens specifies |
| PtbParse.Consume | ptb.py:116-140 | One iteration of the token loop succeeds exactly when the reference step does, and then leaves the same stack and yields the same tree |
| PtbParse.Reduce | ptb.py:130-136 | The inner `while` loop succeeds exactly when a `(` is on the stack, and then leaves the entries below it and the chain the reference pop builds |
| PtbParse.ChainSnoc | ptb.py:130-135 | Popping one more entry puts it in front of the tail built so far |
| PtbParse.PopChainSome | ptb.py:130-136 | A reduction succeeds exactly when a `(` is on the stack |
| PtbParse.PopChainNearest | ptb.py:130-136 | With a `(` on the stack, a reduction pops down to the nearest `(` and builds the chain of the entries above it in source order |
| PtbParse.StepWord | ptb.py:121-128 | `)` over `( A B` replaces those three entries with `Word(word=B, pos=A)`, keeps the entries below, and yields nothing |
| PtbParse.StepGroup | ptb.py:129-140 | Any other `)` builds the chain back to the nearest `(`; it is yielded iff the stack is then empty, otherwise pushed back |
| PtbParse.StepCloseFails | ptb.py:121-136 | A `)` raises IndexError exactly when no `(` is on the stack |
| PtbParse.UnclosedDropped | ptb.py:115-119 | From any stack, input without `)` yields nothing and raises nothing |
| PtbParse.StepKeepsOpen | ptb.py:115-140 | A token that does not close the bottom `(` keeps it at the bottom, yields nothing, and moves the count of `(` above it by one for `(`, minus one for `)` |
| PtbParse.UnclosedGroupDropped | ptb.py:115-140 | With `(` at the bottom of the stack, input whose running depth never closes it yields nothing and raises nothing, whatever groups close inside it |
| PtbParse.UnclosedInputDropped | ptb.py:111-140 | Input starting with a `(` that is never closed, such as `(S (NP a) (VP b)`, yields nothing and raises nothing |
| PtbParse.BlockedBottom | ptb.py:115-140 | Once a non-`(` entry is at the bottom of the stack, nothing more is ever yielded |
| PtbParse.TopLevelWordNeverYielded | ptb.py:121-128 | A top-level `(TAG word)` is never yielded, whatever follows |
| PtbParse.GroupAccessors | ptb.py:85-96 | A reduced group headed by an atom has that atom's Symbol, and its children are the other popped entries in order |
| PtbParse.ChainCells | ptb.py:130-135 | A reduced chain has one cell per popped entry, holding those entries' heads in source order |
| PtbParse.RunShift | ptb.py:116-119 | `(` and atoms are pushed, yielding nothing and never failing |
| PtbParse.RunShifts | ptb.py:115-119 | A run of tokens with no `)` pushes its entries in order onto the stack, yielding nothing and never failing |
| PtbParse.WrappedSentence | ptb.py:111-140 | For any label L, part of speech P and word w, `( (L (P w)) )` yields a single cell whose head is the chain of the L group and whose tail is None: the outer wrapper is kept |
| Sexp.LStrip | sexp.py:23 | `lstrip` never lengthens the rest of the line and leaves it not starting with whitespace |
| Sexp.RStrip | sexp.py:18 | The right half of `strip` keeps a prefix of the line that does not end in whitespace |
| Sexp.Strip | sexp.py:18 | A stripped line neither starts nor ends with whitespace |
| Sexp.LStripDrops | sexp.py:23 | `lstrip` leaves a suffix of the line, and everything it removed is whitespace |
| Sexp.RStripDrops | sexp.py:18 | `rstrip` leaves a prefix of the line, and everything it removed is whitespace |
| Sexp.StripDrops | sexp.py:18 | `strip` leaves a middle slice of the line, and everything it removed at either end is whitespace |
| Sexp.MatchLen | sexp.py:20-23 | On a non-empty line that does not start with whitespace, the token pattern always matches at least one character |
| Sexp.Tokenize | sexp.py:16-24 | The line loop yields exactly the specified tokens of each line, lines in order |
| Sexp.TokenizeOneLine | sexp.py:18-24 | The `while` loop over one stripped line yields exactly that line's specified tokens |
| Sexp.TokenizeLineLex | sexp.py:14-24 | `tokenize` and ptb.py's `lex` cut every line into the same tokens |
| Sexp.TokenizeLineSpelling | sexp.py:14-24 | The tokens of a line concatenate to the line without whitespace; each is `(`, `)` or a non-empty atom |
| Sexp.BalanceParens | sexp.py:26-46 | The counter loop yields exactly the groups of the reference recursion and fails exactly as it does |
| Sexp.BalanceSize | sexp.py:26-46 | The groups hold no more tokens than the input |
| Sexp.BalanceGroups | sexp.py:26-46 | Every yielded string is an atom other than a paren; every yielded list starts with `(`, ends with `)`, and has positive depth on each proper prefix and zero depth at its end |
| Sexp.BalanceFails | sexp.py:33-34 | The assertion fails exactly when the running depth would drop below zero |
| Sexp.BalanceFlat | sexp.py:26-46 | The groups concatenate to a prefix of the input tokens, and to all of them when the depth never dips and ends at zero |
| Sexp.BalanceDropsOpen | sexp.py:26-46 | A group still open at the end is dropped without error, so some tokens go unreported |
| Sexp.BalanceTop | sexp.py:26-46 | A printed value's tokens form one group at depth 0, followed by the groups of the rest |
| Sexp.SexpsCons | sexp.py:48-56 | Reading a printed value followed by more tokens gives that value, then what the rest reads as |
| Sexp.SexpsFrom | sexp.py:48-56 | The tokens of a list's elements read back as those elements |
| Sexp.StringifyLex | sexp.py:58-62 | Lexing `stringify`'s output gives the value's token sequence |
| Sexp.RoundTrip | sexp.py:14-62 | `sexps(tokenize([stringify(x)]))` yields exactly `[x]` when every string in `x` is an atom |
| Sexp.SexpsEmptyList | sexp.py:48-56 | `()` reads as the empty list |
| Sexp.SexpsFails | sexp.py:48-56 | `sexps` raises exactly when a `)` arrives at depth 0; converting the groups never raises on its own |
| Sexp.ConvertSucceeds | sexp.py:49-56 | Groups of the shape `balance_parens` yields pass the paren assertion and convert without error |
| Sexp.Terminals | sexp.py:71-80 | `terminals` fails its assertion exactly on a string argument, and on a list yields the leaves `TerminalsOf` collects |
| Sexp.TerminalsAreLeaves | sexp.py:71-80 | Every yielded item is a `[tag, word]` list of two strings; without `include_nulls`, no tag is `-NONE-` |
| Sexp.TerminalsWithoutNulls | sexp.py:71-80 | The output without nulls is the output with nulls minus the `-NONE-` leaves, order kept |
| Sexp.TerminalsReach | sexp.py:71-80 | A value is yielded exactly when it is a two-string list reached from the argument through list elements, and its tag is not `-NONE-` unless nulls are included |
| Sexp.TerminalsOfLeaves | sexp.py:71-80 | Under a label whose children are all leaves, the yield is those children left to right, the `-NONE-` ones only with nulls included |
| Sexp.EndPos | sexp.py:83 | `$` matches at the end or just before a final newline |
| Sexp.DigitsBefore | sexp.py:83 | `\d+` before `$` takes the maximal run of digits |
| Sexp.RemoveCoindex | sexp.py:82-83 | Never lengthens the label; without a final newline, the result is a prefix of it (the identical `remove_coindex` of extract-patterns.py:16-17 is this same function) |
| Sexp.RemoveCoindexChanges | sexp.py:82-83 | The label changes exactly when it ends in `-digits`, before an optional final newline |
| Sexp.RemoveCoindexStrips | sexp.py:82-83 | `p-digits` becomes `p`, keeping a final newline |
| Sexp.RemoveCoindexNotIdempotent | sexp.py:82-83 | Only one suffix goes: `NP-1-2` gives `NP-1`, which gives `NP` |
| Sexp.UpperRun | sexp.py:86 | `[A-Z]+` takes the maximal run of uppercase letters |
| Sexp.SimplifyTag | sexp.py:85-90 | The result is a prefix of the tag; when it differs, it is a non-empty uppercase word followed by `-` or a newline |
| Sexp.SimplifyTagIdempotent | sexp.py:85-90 | Simplifying twice is simplifying once |
| Sexp.SimplifyTagOfShape | sexp.py:85-90 | An uppercase word, then `-XXX` groups, then an optional `-digits` and newline, simplifies to the word |
| Sexp.SimplifyTagChanged | sexp.py:85-90 | Conversely, a tag that changes has exactly that shape with the result as its word, so any other tag comes back unchanged |
| Sexp.GroupsTailParts | sexp.py:86 | What follows the word in a match splits into three-letter groups, an optional index and an optional newline |
| Sexp.SimplifyTagNull | sexp.py:85-90 | `-NONE-` is left unchanged |
| Sexp.SimplifyTagPossessive | sexp.py:85-90 | `PRP$` is left unchanged |
| Sexp.SimplifyTagShortGroup | sexp.py:85-90 | `NP-SB` is left unchanged, since a group needs three letters |
| Sexp.SimplifyTagSubject | sexp.py:85-90 | `NP-SBJ-1` simplifies to `NP` |
| Sexp.First | sexp.py:95 | `c[0]` succeeds exactly on a non-empty value and gives its first element |
| Sexp.Rest | sexp.py:95 | `sexp[1:]` holds every element after the first, in order |
| Sexp.Heads | sexp.py:95 | The list of first elements succeeds exactly when no child is empty, and otherwise raises IndexError |
| Sexp.DropQuotes | sexp.py:97 | `remove_quotes` keeps exactly the non-quote children |
| Sexp.DropQuotesAppend | sexp.py:97 | Filtering a concatenation is filtering each part, so kept children keep their order and repetitions |
| Sexp.DropQuotesSingle | sexp.py:97 | One child is dropped exactly when it is a quote |
| Sexp.DropInitialCC | sexp.py:98-99 | An initial `CC` is dropped exactly when it is not followed by `,` or `:`; other children are kept as they are; an empty list or a lone `CC` raises IndexError |
| Sexp.Proc | sexp.py:100-101 | Applying `simplify_tag` or `remove_coindex` to a list raises TypeError, and to a string succeeds |
| Sexp.ProcAll | sexp.py:101 | The children's labels are processed one by one, succeeding exactly when all are strings |
| Sexp.ProcAllLabels | sexp.py:95-101 | Children with string labels give exactly their processed labels, in order |
| Sexp.PatternOfTree | sexp.py:92-101 | `pattern` of `(TAG kid ...)` is the processed tag with the processed labels of the kids |
| Sexp.PatternInitialCC | sexp.py:98-99 | With `remove_initial_cc`, a leading CC child not followed by `,` or `:` is left out |
| Sexp.PatternLoneCC | sexp.py:98 | A lone CC child with `remove_initial_cc` raises IndexError |
| Sexp.PatternNoQuotes | sexp.py:96-101 | With `remove_quotes` and `simplify_tag`, no child label in the result is a quote |
| Sexp.PatternIndexedQuote | sexp.py:96-101 | With `remove_coindex` and `remove_quotes`, a child labelled with a quote plus an index (`` ``-1 ``) passes the quote filter and comes out as the bare quote |
| Sexp.PatternUnwrap | sexp.py:93-94 | A one-element list is unwrapped once: the pattern of `[y]` is the pattern of `y` |
| Sexp.PatternLoneLabel | sexp.py:93-101 | A one-element list holding a string unwraps to that string, whose characters act as label and children: `(NP)` gives `N => P` |
| ExtractPatterns.GetVerbLeaf | extract-patterns.py:19-22 | On `(tag word)`: the word exactly when the tag starts with `V`, otherwise None; an empty tag raises IndexError |
| ExtractPatterns.GetVerbString | extract-patterns.py:19-26 | On a bare string, which Python indexes as one-character strings: its second character when it has exactly two characters and starts with `V`, otherwise None |
| ExtractPatterns.GetVerbLastChild | extract-patterns.py:23-26 | On a non-terminal, the result is that of the last child whose label starts with `V`, even when that result is None |
| ExtractPatterns.GetVerbNoVerbalChild | extract-patterns.py:23-26 | A non-terminal with no child labelled `V...` gives None |
| ExtractPatterns.GetVerbReportedSpeech | extract-patterns.py:19-26 | `(VP-1 (VBD said) (SBAR x y))` has the verb `said` |
| ExtractPatterns.IsReportVerbExactly | extract-patterns.py:28-34 | True exactly for say, says, said, announced, announce and announces, and never for a missing verb |
| ExtractPatterns.FormatLeaf | extract-patterns.py:37-38 | A terminal is written `word/tag` |
| ExtractPatterns.FormatPhrase | extract-patterns.py:39-45 | A non-terminal is its label minus one trailing `-digits`, followed by `/verb` exactly when `get_verb` finds a reporting verb |
| ExtractPatterns.FormatReportedSpeech | extract-patterns.py:36-45 | `(VP-1 (VBD said) (SBAR x y))` is written `VP/said` |

## Left out

- File and terminal I/O is not modelled: the CLI of ptb.py and sexp.py (`print_tokens`, `main`), the module-level loop of extract-patterns.py, and the other scripts. The model takes the input text as a parameter.
- `Token.__str__` and the unused `lineno` field of `Token` are not modelled, because they only format values.
- Regular expressions are hand-coded scanners over ASCII. Unicode whitespace for `\s` and Unicode digits for `\d` are not modelled, and neither is the `re` engine itself.
- Generators are modelled as finite sequences. Laziness and partial consumption by a caller are not modelled; output yielded before an exception is kept.
- Python object identity and `hasattr` probing are replaced by datatype constructors. Aliasing between the `tail` chains that `parse` builds is not observable in the model.
- `all_spans`, `remove_empty_elements`, `simplify_labels` and `add_root` are not part of this model, because their definitions are not in the modelled ptb.py.
- Sexp.MatchLen: the `if m:` test in `tokenize` is never false on a stripped non-empty line, so the model has no branch for it.
