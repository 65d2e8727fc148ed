# Signature-query engine of coogle-rs, in Dafny

coogle-rs searches the C functions of one source file by approximate type
signature. This project models its query engine (`src/matcher.rs`):

- the lexer `Token::tokenize`, which splits a query into `Identifier`,
  `LeftParen`, `RightParen` and `Comma` tokens;
- the parser `FunctionSignature::from_tokens`, a two-state machine whose
  `is_return` flag decides whether an identifier is the return type or a
  parameter;
- `normalize_query`, which splits a query into alphanumeric runs and single
  other characters and joins them again without the single spaces;
- the canonical text `fuzzy_match` builds for both signatures,
  `return_type(p1,p2,...,pn,)`, and the similarity call on the two texts.

The record types of `src/collector.rs` are the datatypes of `Collector.dfy`.
Their fields `return_type`, `params` and `is_variadic` are named
`returnType`, `params` and `isVariadic` here.

Each source function is a Dafny method with the source's loops. Each method
is proved equal to a specification function: `Lex` (with `LexIdentifier`,
the two mutually recursive functions for the two nested loops of the lexer),
`Parse` (over the recursive state-machine fold `Run`) for the parser,
`Normalized` for the normaliser, and `Render` for the canonical text. Lemmas
then state what those functions mean. Examples are lexer counts, an
independent description of the parser's result, the characters the
normaliser keeps, and the shape and length of the canonical text. The main
cross-component result is a round trip: the lexer and the parser read the
canonical text of a readable signature (no delimiter in the return type,
non-empty delimiter-free parameters, not variadic) back to that signature
(`RenderRoundTrip`), and every parsed query is readable
(`ParsedQueryRoundTrip`). Candidates from the front end need not be
readable: the variadic flag is not rendered, and a parameter type such as
`void (*)(int)` holds delimiters, so the round trip does not cover them.

The lexer is modelled as the code is written, which differs from the
informal description of the query grammar. An identifier is a maximal run
of characters other than `(`, `)` and `,`, spaces included. The delimiter
that ends an identifier is consumed without a token of its own. An
identifier that runs to the end of the input is never emitted. So
`int(int,int)` yields three `Identifier("int")` tokens and no parenthesis or
comma. `int -> (int, int)` yields `int -> `, `int` and ` int`.

Files: `Collector.dfy`, `Tokenizer.dfy`, `SignatureParser.dfy`,
`QueryNormalizer.dfy`, `Canonicalizer.dfy`.

## Model

| member | source | states |
|---|---|---|
| Tokenizer.Tokenize | src/matcher.rs:14-38 | The result is always `Ok`, holding exactly the tokens `Lex` gives for the input; there is no error path. |
| Tokenizer.LexTopLevelDelimiter | src/matcher.rs:18-21 | A `(`, `)` or `,` met outside an identifier (at the start, or right after another delimiter) emits exactly its own token, and lexing goes on independently after it. |
| Tokenizer.LexSwallow | src/matcher.rs:22-30 | A non-empty delimiter-free run followed by a delimiter is emitted as one `Identifier` with the whole run, and that delimiter emits nothing. |
| Tokenizer.LexDelimiterFree | src/matcher.rs:25-33 | Input with no delimiter yields no token: the identifier that reaches the end of input is dropped. |
| Tokenizer.LexRun | src/matcher.rs:22-33 | After a non-delimiter, the lexer consumes the whole run up to the next delimiter: one identifier and the delimiter, or nothing at end of input. |
| Tokenizer.LexIdentifierRun | src/matcher.rs:25-33 | The inner loop accumulates every non-delimiter character into the current identifier. |
| Tokenizer.LexAppend | src/matcher.rs:17-36 | Lexing restarts after each delimiter: input cut just after a delimiter lexes as the concatenation of the two parts' tokens. |
| Tokenizer.LexLength | src/matcher.rs:17-36 | The number of tokens equals the number of `(`, `)` and `,` characters in the input. |
| Tokenizer.LexIdentifiers | src/matcher.rs:22-33 | Every emitted identifier is non-empty, contains no delimiter, and is a run of consecutive input characters. |
| Tokenizer.RunLength | src/matcher.rs:25-33 | The length of the leading run is bounded by the input, covers only non-delimiters, and stops at a delimiter. |
| Tokenizer.LexExample | src/matcher.rs:14-38 | `int(int,int)` yields exactly three `Identifier("int")` tokens. |
| Tokenizer.LexArrowExample | src/matcher.rs:14-38 | `int -> (int, int)` yields the identifiers `int -> `, `int` and ` int`, spaces kept. |
| SignatureParser.FromTokens | src/matcher.rs:42-71 | The loop over the tokens builds `Parse(tokens)`, and the variadic flag is always false. |
| SignatureParser.ParseCharacterized | src/matcher.rs:43-62 | The return type is the last identifier read in the return state, or `""`. The parameters are exactly the identifiers read outside it, in order. The return state holds at the start and after `)`, is left after `(` or an identifier, and is unchanged by `,`. |
| SignatureParser.ParseIgnoresComma | src/matcher.rs:63 | Deleting a `Comma` token anywhere leaves the signature unchanged. |
| SignatureParser.RunAppend | src/matcher.rs:47-65 | Running the state machine over two token sequences in turn is running it over their concatenation. |
| SignatureParser.ParseGrammarExample | src/matcher.rs:42-71 | `[Identifier int, LeftParen, Identifier int, Comma, Identifier int, RightParen]` parses to return type `int`, parameters `[int, int]`, not variadic. |
| SignatureParser.ParseQueryExample | src/matcher.rs:42-71 | The tokens actually produced for `int(int,int)` parse to the same signature. |
| SignatureParser.ParseArrowQueryExample | src/matcher.rs:42-71 | `int -> (int, int)` parses to return type `int -> ` and parameters `[int,  int]` (second with a leading space). |
| QueryNormalizer.TrailingRunLength | src/matcher.rs:78-88 | The length of the trailing run covers only alphanumeric characters and is maximal. |
| QueryNormalizer.SplitQuery | src/matcher.rs:76-88 | The pieces are non-empty alphanumeric runs or single other characters, no two neighbouring pieces are both alphanumeric (every run is maximal), and together they spell the query without its trailing alphanumeric run. |
| QueryNormalizer.PushRun | src/matcher.rs:82-84 | Closing a non-empty open run after a non-alphanumeric last piece appends it to the spelled text and keeps the pieces well formed with no two alphanumeric neighbours. |
| QueryNormalizer.PushOther | src/matcher.rs:86 | A non-alphanumeric character becomes a piece of its own, ends the spelled prefix, leaves no open run, and keeps every run maximal. |
| QueryNormalizer.NormalizeQuery | src/matcher.rs:74-105 | The result is the query with its trailing alphanumeric run dropped and every space deleted. |
| QueryNormalizer.RemoveSpacesSubsequence | src/matcher.rs:92-102 | Skipping the single-space pieces leaves a space-free subsequence of the input. |
| QueryNormalizer.RemoveSpacesCount | src/matcher.rs:92-102 | Every character other than a space keeps its number of occurrences. |
| QueryNormalizer.NormalizedProperties | src/matcher.rs:76-104 | The normalised query has no space, is a subsequence of the query, is no longer than it, and keeps every non-space character before the trailing run as often as it occurs there. |
| QueryNormalizer.NormalizedNotIdempotent | src/matcher.rs:74-105 | `ab c` normalises to `ab`, which normalises to the empty string. |
| Canonicalizer.CanonicalForm | src/matcher.rs:108-117 | The appends build `Render(sig)`: return type, `(`, each parameter followed by `,`, then `)`. |
| Canonicalizer.FuzzyMatch | src/matcher.rs:107-132 | The score is the similarity of the candidate's canonical text to the query's, in that argument order, with the same rendering for both. |
| Canonicalizer.JoinParamsPush | src/matcher.rs:113-116 | Appending one more parameter appends it and a comma to the rendered list. |
| Canonicalizer.RenderLength | src/matcher.rs:111-117 | The canonical length is the return type's length, plus 2, plus the length of each parameter plus one. |
| Canonicalizer.RenderNoParamsDiffersFromVoid | src/matcher.rs:111-125 | No parameters render as `rt()`, a single `void` as `rt(void,)`, and the two differ. |
| Canonicalizer.CollectedNeverRendersEmptyGroup | src/collector.rs:35-37 | A candidate always has a parameter (the front end substitutes `void`), so its canonical text never equals that of a query with no parameters. |
| Canonicalizer.RenderRoundTrip | src/matcher.rs:108-117 | For a non-variadic signature whose return type has no delimiter and whose parameters are non-empty and delimiter-free, lexing and parsing its canonical text gives the signature back. |
| Canonicalizer.RenderInjective | src/matcher.rs:108-125 | Two such signatures with the same canonical text are equal. |
| Canonicalizer.ParsedFromIdentifiers | src/matcher.rs:47-62 | Every parameter, and a non-empty return type, of a parsed signature is the text of an identifier token that was read. |
| Canonicalizer.ParsedQueryRoundTrip | src/matcher.rs:14-71 | Every signature parsed from lexed text satisfies the round-trip condition, so re-querying with its canonical text gives the same signature. |
| Canonicalizer.LexJoinParams | src/matcher.rs:22-30 | The rendered parameter list lexes to one identifier per parameter, the commas swallowed. |
| Canonicalizer.RunIdentifiers | src/matcher.rs:53-55 | Outside the return state, identifiers are appended to the parameters in order. |

## Left out

- `char::is_alphanumeric` is approximated by the ASCII letters and digits. Non-ASCII letters and digits, which Rust counts as alphanumeric, are treated here as single other characters.
- The Jaro-Winkler similarity of the external `strsim` crate is a parameter `similarity` of `FuzzyMatch`. The 64-bit float result is a `real`. Its properties (range `[0, 1]`, 1 for equal texts) are not modelled.
- `Canonicalizer.FuzzyMatch` renders through one `CanonicalForm` method called twice; the source repeats the same appends inline for both arguments.
- `QueryNormalizer.SplitQuery`: the two loops of `normalize_query` are split into two methods, the first returning the pieces. The loops are unchanged.
- The ranking in `src/main.rs` (a library `sort_by` with a float `partial_cmp().unwrap()` comparator, then printing `funcs[0..20]`) is not modelled: floats, a library sort and terminal output.
- The libclang front end (`func_from_cursor`, `get_funcs`, `parse_file` in `src/collector.rs`) is foreign code through unsafe FFI with diagnostic printing. It is not modelled. Its substitution of `void` for an empty parameter list is not stated itself; only its consequence, a non-empty parameter list, is stated as the predicate `Collector.IsCollected` on candidate signatures.
- The commented-out similarity threshold in `src/matcher.rs` is dead code.
- The `Result` error type of `tokenize` is a `Result<seq<Token>, string>` datatype whose `Err` branch is never produced.
