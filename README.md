# RAL lexer and token printer

A Dafny model of the front end of RAL, a small language for describing
registers and aliases. The model covers three things from `src/parser.rs`:

- the token type;
- the way tokens are printed (`impl Display for Token`);
- the keyword and punctuation lexer `lexer()`.

The lexer is an ordered choice over seven spellings, tried in this order:
`{`, `}`, `alias`, `_`, `register`, `:`, `restricted`. Each token is paired with
the span of its own text. Whitespace around a token is skipped (`padded`). The
choice is repeated until no spelling follows.

The syntax tree types of `src/ast.rs` are transcribed as datatypes. The source
has no operations on them.

Files:

- `tokens.dfy` (module `Tokens`): the `Token` datatype, Rust's decimal rendering
  of a `u32`, and the printer.
- `lexer.dfy` (module `Lexer`): whitespace, the ordered choice, the repetition
  and the whole-input lexer.
- `lexer_properties.dfy` (module `LexerProperties`): what the lexer guarantees.
- `ast.dfy` (module `Ast`): the tree types.

The lexer does not look for word boundaries. So `aliasregister` lexes to
`Alias` then `Register`, and `LexLayout` allows an empty gap between tokens.

Where the repetition stops is modelled as `Lexed.rest`. Two rules follow
chumsky's `repeated` combinator:

- An attempt that fails is undone, including the whitespace it had skipped. So an
  input of whitespace alone stops at index 0.
- A run with tokens stops after the whitespace that follows its last token.

## Model

| member | source | states |
|---|---|---|
| Tokens.Decimal | src/parser.rs:45 | the text `{}` writes for a number is canonical decimal: at least one digit, and no leading zero unless the number is 0 |
| Tokens.DecimalRoundTrip | src/parser.rs:45 | reading back the decimal text of `n` gives `n` |
| Tokens.DecimalValueRoundTrip | src/parser.rs:45 | every canonical decimal string is the text of the number it denotes, so the rendering is a bijection |
| Tokens.Print | src/parser.rs:40-54 | the printer as written: `Num(n)` prints as canonical decimal text whose value is `n`, `Ident(s)` prints as `s` unchanged, and every other kind prints as non-empty text that does not start with a digit |
| Tokens.PrintIntended | src/parser.rs:40-54 | the corrected printer: the same as `Print` except that the two brace arms are swapped back |
| Lexer.Spelling | src/parser.rs:57-63 | the text each alternative reads: never empty, and never containing whitespace |
| Lexer.MatchFirst | src/parser.rs:65-71 | the ordered choice returns one of the alternatives whose spelling occurs at `j`, with the index just after that spelling; it fails only when no alternative's spelling occurs there |
| Lexer.MatchToken | src/parser.rs:57-71 | one attempt of `token`: on success, the text at `[j, end)` is the spelling of the token read, and the token is a lexable kind; it fails only when no lexable kind's spelling occurs at `j` |
| Lexer.AlternativeIndex | src/parser.rs:65-71 | every lexable kind is one of the seven alternatives |
| Lexer.SkipWhitespace | src/parser.rs:75 | the whitespace skip of `padded`: it passes only whitespace and stops at the first non-whitespace character or at the end |
| Lexer.LexFrom | src/parser.rs:73-76 | the repetition stops inside the input and never before where it started |
| Lexer.Lex | src/parser.rs:56-77 | `lexer()` on a whole input stops within the input; it reads no token exactly when no spelling follows the leading whitespace, and otherwise its first token starts right after that whitespace |
| LexerProperties.SkipWhitespaceIdempotent | src/parser.rs:75 | skipping whitespace twice is the same as once |
| LexerProperties.SpellingsPrefixFree | src/parser.rs:57-63 | no spelling is a prefix of a different one |
| LexerProperties.AtMostOneSpelling | src/parser.rs:65-71 | at most one spelling occurs at any index, so the order of the alternatives never decides which token is read |
| LexerProperties.MatchFirstTakesFirst | src/parser.rs:65-71 | the ordered choice returns the first alternative, in the order tried, whose spelling occurs at `j` |
| LexerProperties.MatchTokenUnique | src/parser.rs:65-71 | wherever the spelling of `t` occurs, the choice reads `t`; `restricted` is read although `register` is tried first |
| LexerProperties.LexFromStops | src/parser.rs:73-76 | the repetition stops where no spelling follows the whitespace; with no token it consumes nothing, otherwise it stops after the trailing whitespace |
| LexerProperties.LexFromAfterWhitespace | src/parser.rs:75-76 | skipping whitespace before the repetition does not change the tokens read |
| LexerProperties.LexFromSpans | src/parser.rs:73-76 | every span lies within the consumed part and covers exactly its token's spelling, and the spans are in order and do not overlap |
| LexerProperties.LexSpans | src/parser.rs:56-77 | the same for a whole input: spans lie within the input, the text under each is the spelling of its token, and the spans are ordered and disjoint |
| LexerProperties.LexOnlyKeywords | src/parser.rs:56-77 | the lexer never produces `Num` or `Ident` |
| LexerProperties.LexStops | src/parser.rs:56-77 | the whole-input lexer stops at a point where no spelling follows the whitespace; with no token read it stops at 0, and with tokens read it stops after the whitespace that follows the last one |
| LexerProperties.LexFromCoverage | src/parser.rs:73-76 | the consumed text with its whitespace deleted is exactly the tokens' spellings concatenated, so only whitespace lies between and around tokens |
| LexerProperties.LexCoverage | src/parser.rs:56-77 | the same for a whole input |
| LexerProperties.LexFromLayout | src/parser.rs:56-77 | text made of spellings and whitespace, read from `i`, lexes to exactly those token kinds in order; with at least one token it is consumed to the end, and with none it consumes nothing (the failed attempt gives back its whitespace) |
| LexerProperties.LexLayout | src/parser.rs:56-77 | any sequence of spellings joined by whitespace lexes to exactly those tokens and is consumed whole; whitespace alone yields no tokens and consumes nothing |
| LexerProperties.LexWhitespaceOnly | src/parser.rs:73-76 | empty or whitespace-only input yields no tokens and stops at 0 |
| LexerProperties.LexAlone | src/parser.rs:56-77 | each of the seven spellings lexed on its own gives exactly its token, spanning the whole text |
| LexerProperties.LexPadded | src/parser.rs:56-77 | each spelling, padded with any whitespace, lexes to exactly its one token, whose span covers the spelling alone, and is consumed whole |
| LexerProperties.PrintSpelling | src/parser.rs:40-54 | each lexable kind prints as its own spelling, except that each brace prints as the other brace's spelling |
| LexerProperties.LexPrintRoundTrip | src/parser.rs:40-77 | printing a lexed token gives the text under its span for every kind but the braces; a lexed `{` prints as `}` and a lexed `}` as `{` |
| LexerProperties.BraceRoundTripFails | src/parser.rs:50-51 | `{` lexes to `LBrace`, which prints as `}`, and that text lexes to `RBrace` |
| LexerProperties.PrintIntendedSpelling | src/parser.rs:40-63 | the corrected printer renders each lexable kind as the spelling the lexer reads |
| LexerProperties.LexPrintIntendedRoundTrip | src/parser.rs:40-77 | with the corrected printer, every lexed token prints as the text under its span |
| LexerProperties.PrintIntendedLexRoundTrip | src/parser.rs:40-77 | with the corrected printer, lexing the printed text of a lexable token gives back that token, spanning the whole text |

## Left out

- `ParseError`, its `Display` and `From<io::Error>` (src/parser.rs:12-25): they carry no data and the lexer does not use them.
- Error values of the parser library (`Simple<char>`): a failed attempt is modelled only as `NoMatch`, and the end of the repetition only as `Lexed.rest`.
- The imports of src/parser.rs: most are unused by the lexer.
- src/bin/ral.rs: the command-line entry point. It parses its arguments (a file path and an output language), prints a fixed greeting, and reads no file. It does not call the lexer and is not part of this model.
- src/ast.rs: transcribed as datatypes in `Ast`. The source defines no operations on them. `RefCell` and `Arc` sharing is not modelled; values are plain strings.
- The expression and declaration parsers, number, identifier and variable lexing, and duplicate-name detection: src/parser.rs has no expression or declaration parser, and its lexer has no alternative for numbers, identifiers or variables. The `Num` and `Ident` kinds exist only in the token type and the printer.
- Lexer.IsWhitespace: follows Rust's `char::is_whitespace` (the Unicode White_Space property) as a fixed list of code points. Character classes beyond that list are not modelled.
- Lexer.Span: spans are character indices, which is what the parser library reports for a `char` stream. They are not byte offsets.
- Lexer.Lex: the library also keeps an error value for the failed attempt that ends the repetition. The model keeps only which tokens are read and where lexing stops.

## Findings

| source | as written | input that shows it | evidently intended | confidence | as-written member | corrected member |
|---|---|---|---|---|---|---|
| src/parser.rs:50-51 | `RBrace` renders as `{` and `LBrace` as `}`, the reverse of what the lexer reads for them (src/parser.rs:57-58) | the text `{` lexes to `LBrace`; printing that gives `}`, which lexes to `RBrace` | each brace renders as the text the lexer reads for it, so printing a lexed token gives back its source text | not executed | LexerProperties.BraceRoundTripFails | Tokens.PrintIntended, LexerProperties.LexPrintIntendedRoundTrip |
