# Lexer and span algebra of the monad compiler front-end, in Dafny

This project models three small, pure parts of the front-end of the compiler for the
ML-style language `monad`:

- **Character literals.** `parse_char` turns the text matched as `'…'` into one `char`
  or a `LexError` (`EmptyChar`, `MultiChar`, `UnknownEscape`). The escape table is
  `\' \\ \n \r \t \0`. The length check on an escape happens before the table lookup.
- **Lex result aggregation.** `lex` walks the spanned stream the tokenizer produces and
  gives back every token (`Ok`) or every error (`Err`). Each entry is tagged with
  `Span::new(src_id, range)`. The tokenizer itself is abstract: its output stream is the
  input of `Lexer.Lex`.
- **Two span algebras.**
  - The syntax crate's `Span` has a source id and a `Range<usize>`, plus `len`,
    `is_empty`, `merge`, `Default` and the conversion to the renderer's `(offset, length)`.
  - The core crate's `Span` has `u32` bounds, `merge`, and `Spanned<T>` with `map` and
    the tuple conversions.

Modules:

- `Results`: `Result` and `Option`.
- `SyntaxSpan`: `crates/syntax/src/span.rs`.
- `CoreSpan`: `crates/core/src/span.rs`.
- `Tokens`: `Token`, `LexError`, the exact-text `#[token]` table and `Display` of
  `crates/syntax/src/lexer.rs`.
- `CharLiteral`: `parse_char`.
- `Lexer`: `lex`.

`usize` and `u32` are subset types of `int` bounded by 2^64 and 2^32. No modelled
operation produces a value larger than its inputs, so no wrap-around has to be written out.
Each debug assertion in the source becomes a `requires`, and so does the `usize`
subtraction that panics on underflow in debug builds.

Facts about the code that the model keeps:

- The keywords are `fun int bool float char unit`; `true` and `false` lex as `Bool`.
- `lex` appends no end-of-input token. `Lexer.NoErrorsKeepsEveryItem` states that the
  token list has exactly one entry per stream item.
- The escape table is `' \ n r t 0`.
- Tokens come from a pattern-driven tokenizer whose spanned output `lex` consumes.
- Identifiers match `[a-z_][a-zA-Z0-9_]*`.

## Model

| member | source | states |
|---|---|---|
| SyntaxSpan.Default | crates/syntax/src/span.rs:12-19 | the default span has source 0, start 0, length 0, is empty and covers no offset |
| SyntaxSpan.DefaultIsEmpty | crates/syntax/src/span.rs:12-19 | the default span is empty and its offset set is empty |
| SyntaxSpan.New | crates/syntax/src/span.rs:23-35 | `Span::new` stores the source unchanged, and `start()`/`end()` read back the range's start and end |
| SyntaxSpan.Len | crates/syntax/src/span.rs:38-40 | on a span with start <= end (the subtraction underflows otherwise), start + len == end |
| SyntaxSpan.LenCountsOffsets | crates/syntax/src/span.rs:38-40 | `len()` is the number of byte offsets the span covers |
| SyntaxSpan.IsEmpty | crates/syntax/src/span.rs:43-45 | `is_empty()` holds iff end <= start, as `Range::is_empty` decides |
| SyntaxSpan.IsEmptyIffNoOffset | crates/syntax/src/span.rs:43-45 | `is_empty()` holds iff no offset lies in `[start, end)`, so it is true for every span with end <= start |
| SyntaxSpan.IsEmptyIffLenZero | crates/syntax/src/span.rs:38-45 | on a well-formed span, `is_empty()` iff `len() == 0` |
| SyntaxSpan.Merge | crates/syntax/src/span.rs:47-59 | needs equal sources and keeps that source; the result encloses both spans and lies inside every span of that source that encloses both (min start, max end) |
| SyntaxSpan.MergeUnique | crates/syntax/src/span.rs:47-59 | any same-source span that encloses both inputs and lies inside every such span equals the merge, so the merge contract fixes the result |
| SyntaxSpan.MergeCommutative | crates/syntax/src/span.rs:55-58 | for same-source spans, merge(a, b) == merge(b, a) |
| SyntaxSpan.MergeAssociative | crates/syntax/src/span.rs:55-58 | for same-source spans, merging is associative |
| SyntaxSpan.MergeIdempotent | crates/syntax/src/span.rs:55-58 | merging a span with itself returns it |
| SyntaxSpan.MergeCoversBoth | crates/syntax/src/span.rs:57 | every offset covered by either input is covered by the merge |
| SyntaxSpan.MergeWellFormed | crates/syntax/src/span.rs:55-58 | merging well-formed spans gives a well-formed span at least as long as each input |
| SyntaxSpan.ToSourceSpan | crates/syntax/src/span.rs:62-67 | the renderer span has offset = start and length = end - start = len(), so offset + length == end |
| SyntaxSpan.SourceSpanRoundTrip | crates/syntax/src/span.rs:62-67 | reading `[offset, offset + length)` back gives the original well-formed span |
| SyntaxSpan.SourceSpanSurjective | crates/syntax/src/span.rs:62-67 | every representable (offset, length) pair is the conversion of exactly the span it describes |
| SyntaxSpan.SpanOfPair | crates/syntax/src/span.rs:69-80 | `SpannedExt::span` of a pair returns its span whatever the value |
| CoreSpan.New | crates/core/src/span.rs:10-13 | `Span::new` requires start <= end, stores both bounds, and every span it builds keeps start <= end |
| CoreSpan.Merge | crates/core/src/span.rs:15-20 | the result contains both operands and lies inside every span containing both (min start, max end), and it keeps start <= end when either operand has it |
| CoreSpan.ContainsAntisymmetric | crates/core/src/span.rs:15-20 | containment is antisymmetric: two spans that contain each other are equal |
| CoreSpan.MergeUnique | crates/core/src/span.rs:15-20 | any span containing both operands and lying inside every such span equals the merge, so the merge contract fixes the result |
| CoreSpan.MergeCommutative | crates/core/src/span.rs:15-20 | merge is commutative |
| CoreSpan.MergeAssociative | crates/core/src/span.rs:15-20 | merge is associative |
| CoreSpan.MergeIdempotent | crates/core/src/span.rs:15-20 | merge is idempotent |
| CoreSpan.MergeAbsorbs | crates/core/src/span.rs:17-18 | merging with a span already contained leaves the outer span unchanged |
| CoreSpan.FromRange | crates/core/src/span.rs:23-27 | `From<Range<u32>>` goes through `Span::new`: it inherits the start <= end requirement and gives a valid span with the range's bounds |
| CoreSpan.Map | crates/core/src/span.rs:40-45 | `map` applies `f` to the value and leaves the span unchanged |
| CoreSpan.MapIdentity | crates/core/src/span.rs:40-45 | mapping the identity returns the same `Spanned` |
| CoreSpan.MapCompose | crates/core/src/span.rs:40-45 | `map(f)` then `map(g)` equals `map(g ∘ f)` |
| CoreSpan.FromPair | crates/core/src/span.rs:54-58 | `From<(T, Span)>` keeps the value and the span |
| CoreSpan.FromRangePair | crates/core/src/span.rs:48-52 | `From<(T, Range<u32>)>` keeps the value and builds a valid span with the range's bounds |
| CoreSpan.FromRangePairViaSpan | crates/core/src/span.rs:48-58 | the range conversion equals converting the range to a span first and then using the span conversion |
| CoreSpan.MapFromPair | crates/core/src/span.rs:40-58 | converting a pair and then mapping is the same as mapping the value first |
| Tokens.FixedTokenIffDisplay | crates/syntax/src/lexer.rs:57-117 | a string is the exact-text lexeme of a token iff that token has fixed text and `Display` prints exactly that string (keywords, punctuation, `true`/`false`) |
| Tokens.DisplayFixedInjective | crates/syntax/src/lexer.rs:96-117 | distinct fixed-text tokens display differently |
| Tokens.KeywordsMatchIdentPattern | crates/syntax/src/lexer.rs:61-92 | a fixed lexeme matches `[a-z_][a-zA-Z0-9_]*` iff its first character is a lower-case letter or `_`; so every keyword and boolean also fits the identifier pattern |
| Tokens.Display | crates/syntax/src/lexer.rs:96-117 | the text of every fixed-text token is the lexeme the exact-text table maps to that token; an identifier displays as its own text; a character displays between single quotes, unescaped |
| CharLiteral.ParseChar | crates/syntax/src/lexer.rs:119-150 | empty body: `EmptyChar`; one non-backslash character: that character; a non-backslash character followed by more text: `MultiChar`; backslash plus two or more characters: `MultiChar`; lone backslash or backslash plus an unlisted letter: `UnknownEscape`; `\' \\ \n \r \t \0`: quote, backslash, LF, CR, tab, NUL |
| CharLiteral.Unescape | crates/syntax/src/lexer.rs:135-143 | a follower letter has an entry exactly when it is one of `' \ n r t 0`, and the character it stands for escapes back to that letter |
| CharLiteral.UnescapeInverse | crates/syntax/src/lexer.rs:135-143 | the escape table is a bijection between the letters `' \ n r t 0` and the characters they stand for |
| CharLiteral.ParseCharOkIff | crates/syntax/src/lexer.rs:119-150 | `parse_char` returns `Ok(c)` iff the body is exactly `c` (not a backslash), or a backslash followed by the letter that escapes `c` |
| CharLiteral.QuoteRoundTrip | crates/syntax/src/lexer.rs:119-150 | every character has a body that fits the literal pattern and that `parse_char` decodes to that character |
| CharLiteral.DisplayCharRoundTrip | crates/syntax/src/lexer.rs:111-150 | `parse_char` reads the display `'c'` of a `Char` token back as `c` for every character except backslash, which decodes as `UnknownEscape`; a law of `parse_char` alone, since the lexer never matches the displays of a quote, LF or CR |
| CharLiteral.UnknownEscapeOnlyForUnlistedLetter | crates/syntax/src/lexer.rs:130-143 | when the body fits the literal pattern, `UnknownEscape` arises only from a backslash followed by one unlisted letter; the lone-backslash arm is unreachable |
| Lexer.Lex | crates/syntax/src/lexer.rs:152-171 | `Ok` iff no stream item is an error; `Ok` holds the token list and `Err` holds the non-empty error list, each entry tagged with `Span::new(src_id, range)` |
| Lexer.NoErrorsIff | crates/syntax/src/lexer.rs:166-170 | the error list is empty iff every stream item succeeded |
| Lexer.PartitionSizes | crates/syntax/src/lexer.rs:158-164 | every stream item lands in exactly one of the two lists |
| Lexer.SplitStream | crates/syntax/src/lexer.rs:152-164 | scanning never stops at an error: the lists for a concatenated stream are the concatenations of the lists for its parts |
| Lexer.TokensOfSelectsOkItems | crates/syntax/src/lexer.rs:158-167 | the k-th token is the token of the k-th successful item (positions strictly increasing, every success listed), with that item's span |
| Lexer.ErrorsOfSelectsErrItems | crates/syntax/src/lexer.rs:158-170 | the k-th error is the error of the k-th failed item (positions strictly increasing, every failure listed), with that item's span |
| Lexer.NoErrorsKeepsEveryItem | crates/syntax/src/lexer.rs:153-167 | with no errors, the token list has exactly one entry per stream item in stream order and no end-of-input sentinel |

## Left out

- The tokenizer's matching rules: whitespace skipping, longest match, and exact-text rules
  taking priority over patterns. These are library semantics, so the spanned stream is an
  input of `Lexer.Lex`. The literal-body pattern is modelled only where `parse_char`
  depends on it (`CharLiteral.MatchesLiteralBody`).
- Parsing of `Int(usize)` and `Float(f64)` lexemes, and the `ParseIntError` and
  `ParseFloatError` payloads of `InvalidInt` and `InvalidFloat`. These are standard
  library calls, and the float ones are floating point. The `Float` payload is an
  uninterpreted 64-bit pattern.
- Tokens.Display: not defined for `Int` and `Float` tokens, because numeric formatting is
  a standard-library call.
- Identifier interning. Identifiers are plain strings; the global intern table is shared
  state outside the lexer.
- Diagnostic codes, messages and help texts on `LexError`. This is rendering metadata.
  `SourceSpan` is modelled as an (offset, length) pair.
- SyntaxSpan.Merge: requires equal source ids, which is what the debug assertion checks.
  Release builds keep the first span's source when the ids differ; that case is not
  modelled.
- SyntaxSpan.Len: requires start <= end. The release-build wrap-around of the `usize`
  subtraction is not modelled.
- SyntaxSpan.ToSourceSpan: requires start <= end. The release-build wrap-around of the
  `usize` subtraction for the length is not modelled.
- CoreSpan.FromRange: requires start <= end, inherited from the debug assertion of
  `Span::new`. The inverted span a release build would store is not modelled.
- CoreSpan.FromRangePair: requires start <= end, for the same reason as `FromRange`.
- CoreSpan.New: requires start <= end, which is what the debug assertion checks. Release
  builds would store an inverted span; that case is not modelled.
- `crates/syntax/src/ast.rs`: it only declares data types, with no behaviour beyond
  delegating `Display`.
- `crates/syntax/src/parser.rs`: it only declares the `ParseError` enum; there is no
  parser code to model.
