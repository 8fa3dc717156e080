# simple-repl calculator core, modelled in Dafny

simple-repl is a one-line calculator. Its core is two parts:

- the **lexer** (`src/lexer.rs`) is a cursor over the input line. Each `next_tok` call skips a run of whitespace and classifies exactly one character as Plus, Minus, Asterisk, Slash, Number, BadToken or EndOfFile;
- the **parser** (`src/parser.rs`) keeps the numeric and operator tokens. It folds `n0 op1 n1 … opk nk` with `+`/`-` into a left-nested `Expression` tree and collects diagnostics. `Expression::evaluate` then dispatches on the tree's shape.

Files and modules:

- `options.dfy`, module `Options`: `Option`, the optional value of Rust's `Option`.
- `lexer.dfy`, module `Lexing`: the lexer state `Lexer(input, position)` and its step functions, with lemmas about them.
- `ast.dfy`, module `Ast`: `Number`, `Operator`, `Expression` and the `evaluate*` family. `evaluate` returns what it would print, as an `Output`.
- `parser.dfy`, module `Syntax`: the token kinds the parser consumes.
- `parser.dfy`, module `Parsing`: `Parser(tokens, position, diagnostics)`, the constructor's filtering, the clamped cursor, `parse_expression` and `parse`.

Every Rust panic becomes a `requires`:

- an `unwrap` on an empty token list;
- a first token that is not a literal;
- `todo!()` for `*` and `/`;
- `unreachable!()` for a non-literal child;
- `isize` overflow, which panics in a debug build.

Where the source handles a case itself, the model handles it too. Examples: the clamped cursor, the end of input, NUL, non-ASCII characters, and a missing operand, which becomes a diagnostic.

Behaviour of the code that a calculator user might not expect, which the model keeps:

- `-` is always the Minus token. There is no lookahead into a signed literal.
- A numeral of several digits is several Number tokens. There is no decimal-point scanning.
- `parse` has one precedence level and only folds `+` and `-`. The first token after a literal that is not `+`/`-` ends the parse silently. That includes `*` and `/`.
- `evaluate` picks the integer or the decimal path from the left child alone. It handles only literals and binary nodes whose two children are literals of the left child's kind. `LongChainsAreNotEvaluable` shows that a parsed chain with two or more operators makes it panic.
- The lexer's kinds (`Number` without a payload, no token text) are not the kinds the parser matches on (`Integer(v)`, `Decimal(v)`, `token.text`). The parser is therefore modelled over an abstract token stream with the parser's kinds, and the two halves are not composed.

The lexer compares its position with the input's length in UTF-8 bytes (`input.len()`), but reads the character with that index (`chars().nth`). It then advances by the character's UTF-8 width. The model keeps all three facts:

- `ByteLen` is the byte length;
- `Peek` returns `None` when the index is between the character count and the byte length;
- `Utf8Len` is the advance.

On ASCII input the byte index and the character index coincide.

## Model

| member | source | states |
|---|---|---|
| `Lexing.Utf8Len` | src/lexer.rs:77 | the cursor advances by 1 to 4 positions per character, and by exactly 1 iff the character is ASCII |
| `Lexing.ByteLen` | src/lexer.rs:37 | the byte length the bound check uses is never below the character count |
| `Lexing.ByteLenAscii` | src/lexer.rs:37 | on ASCII input the byte length equals the character count |
| `Lexing.Peek` | src/lexer.rs:35-42 | inside the input, peek yields the character at position+offset; at or past the end it yields NUL, or nothing, which `current` turns into NUL |
| `Lexing.PeekAbsentBetweenLengths` | src/lexer.rs:35-42 | peek yields nothing exactly when position+offset is at or past the character count but below the byte length |
| `Lexing.IsWhitespace` | src/lexer.rs:23-25 | the five whitespace characters; `Lexing.WhitespaceIsOneByte` and `Lexing.EatWhitespaces` state what skipping them means |
| `Lexing.WhitespaceIsOneByte` | src/lexer.rs:23-25 | a whitespace character is one byte wide, is not the end-of-input NUL, and falls into the match's BadToken arm; that `next_tok` never classifies one is the `!IsWhitespace` part of `Lexing.NextTokClassifies` |
| `Lexing.Current` | src/lexer.rs:44-46 | current is the character under the cursor, or NUL past the end of the characters |
| `Lexing.LexNumber` | src/lexer.rs:48-50 | one digit is one payload-free Number token; `Lexing.NextTokClassifies` and `Lexing.DigitsLexOnePerDigit` state where it is produced |
| `Lexing.Classify` | src/lexer.rs:67-75 | the match of `next_tok`; `Lexing.ClassifyKinds` and `Lexing.NextTokClassifies` state its meaning |
| `Lexing.ClassifyKinds` | src/lexer.rs:67-75 | EndOfFile iff NUL, Number iff a decimal digit, and every kind except BadToken comes from one ASCII non-whitespace character |
| `Lexing.EatWhitespaces` | src/lexer.rs:52-61 | the cursor only moves forward, every skipped character is space/tab/LF/CR/form feed, and it stops on a non-whitespace character or NUL |
| `Lexing.NextTok` | src/lexer.rs:63-79 | the input is unchanged, the position strictly increases, a non-EndOfFile token means the cursor was inside the input, and at or past the end the result is EndOfFile with a one-step advance |
| `Lexing.NextTokClassifies` | src/lexer.rs:63-79 | with `c` the first non-whitespace character from the cursor: EndOfFile iff `c` is NUL (including past the end); Plus/Minus/Asterisk/Slash iff `+ - * /`; Number iff an ASCII digit; BadToken iff none of these. The cursor ends just behind `c`, and whitespace is never classified |
| `Lexing.TokensFrom` | src/lexer.rs:63-79 | repeated calls up to the first EndOfFile yield exactly one EndOfFile, as the last token, within (remaining characters + 1) calls |
| `Lexing.Steps` | src/lexer.rs:77 | k calls yield k tokens and move the position forward by at least k |
| `Lexing.TokensFromPrefixOfSteps` | src/lexer.rs:63-79 | the tokens up to the first EndOfFile are the first tokens of every longer run of calls from the same cursor |
| `Lexing.EndOfFileAfterRemaining` | src/lexer.rs:63-79 | from a cursor with n characters left, call number k yields EndOfFile for every k > n |
| `Lexing.EndOfFileIsSticky` | src/lexer.rs:36-39 | once the position is at or past the end, every further call yields EndOfFile |
| `Lexing.ReachesEndWithin` | src/lexer.rs:63-79 | on an input of n characters, call number n+1 yields EndOfFile |
| `Lexing.DenseLineLexesCharByChar` | src/lexer.rs:63-79 | on a line with no whitespace, NUL or non-ASCII character, each call consumes exactly one character, and the tokens are the per-character classification followed by EndOfFile |
| `Lexing.DigitsLexOnePerDigit` | src/lexer.rs:48-50 | an all-digit line yields one Number token per digit, then EndOfFile |
| `Lexing.LeadingWhitespaceIgnored` | src/lexer.rs:52-61 | prefixing a line with any whitespace run leaves its token sequence unchanged |
| `Lexing.LeadingCharIsOneToken` | src/lexer.rs:63-79 | a leading non-whitespace ASCII character other than NUL is one token, followed by the tokens of the rest of the line |
| `Lexing.WhitespaceAroundOperatorsSkipped` | src/lexer.rs:86-99 | for any two whitespace runs (the unit test uses eight spaces each), `ws1 + "+" + ws2 + "/"` lexes to Plus, Slash, EndOfFile |
| `Lexing.OperatorsLexInOrder` | src/lexer.rs:101-116 | `"+-*/"` lexes to Plus, Minus, Asterisk, Slash, EndOfFile, so `-` is always Minus |
| `Ast.IsNumberInteger` | src/parser.rs:36-41 | the shape test for an integer literal; `Ast.Evaluate` and `Ast.EvaluatePathFollowsLeftChild` state that it alone selects the integer path |
| `Ast.IsNumberDecimal` | src/parser.rs:43-48 | the shape test for a decimal literal; `Ast.Evaluate` states that it selects the decimal-literal output, and `Ast.EvaluatePathFollowsLeftChild` that the decimal path needs it of the right child |
| `Ast.EvaluateInt` | src/parser.rs:57-62 | on an integer literal, the result is that literal's value |
| `Ast.EvaluateDecimal` | src/parser.rs:50-55 | on a decimal literal, the result is its payload |
| `Ast.EvaluateBinaryInt` | src/parser.rs:77-88 | for `+`/`-` of two integer literals whose result fits in isize, the result is the mathematical sum or difference (`Denotation`) |
| `Ast.EvaluateBinaryDec` | src/parser.rs:64-75 | for `+`/`-` of two decimal literals, the result is that operator applied to the two payloads |
| `Ast.Evaluate` | src/parser.rs:90-112 | the integer path is taken iff the node is an integer literal or a binary node whose left child is one, and then the value is the tree's mathematical value; a decimal literal prints its payload; the decimal path is a decimal op on the two decimal literal children |
| `Ast.EvaluatePathFollowsLeftChild` | src/parser.rs:102-111 | for a binary node, the left child alone decides the path; on the decimal path the right child must be a decimal literal too |
| `Ast.NestedLeftNotEvaluable` | src/parser.rs:50-75 | a binary node whose left child is binary cannot be evaluated: `evaluate` sends it to the decimal path (src/parser.rs:104-108), where `evaluate_decimal` hits `unreachable!()` for `+`/`-` and `evaluate_binary_dec` hits `todo!()` for `*`/`/` |
| `Ast.MultiplyDivideNotEvaluable` | src/parser.rs:64-88 | a `*` or `/` node cannot be evaluated: both `evaluate_binary_dec` and `evaluate_binary_int` reach `todo!()` |
| `Ast.EvaluateSumAndDifference` | src/parser.rs:77-88 | `a + b` and `a - b` of integer literals evaluate to the sum and the difference whenever it fits in isize |
| `Parsing.Kept` | src/parser.rs:128-135 | the kept tokens contain no EndOfFile and no BadToken, are no more than the stream, and are the stream itself when it has neither |
| `Parsing.New` | src/parser.rs:124-142 | the constructor's loop stores exactly the kept tokens, with the cursor at 0 and no diagnostics |
| `Parsing.KeptAppend` | src/parser.rs:128-135 | filtering keeps order: before any EndOfFile, the tokens of `a + b` are those of `a` followed by those of `b` |
| `Parsing.KeptStopsAtEndOfFile` | src/parser.rs:131 | nothing after the first EndOfFile reaches the parser |
| `Parsing.KeptDropsBadToken` | src/parser.rs:132 | a BadToken anywhere before the first EndOfFile is dropped, and the other tokens are untouched |
| `Parsing.Peek` | src/parser.rs:144-151 | in range, peek yields the token at position+offset; otherwise it yields the last token; it yields None iff the list is empty |
| `Parsing.Current` | src/parser.rs:153-155 | peek at offset 0; `Parsing.CurrentClamps` states its meaning |
| `Parsing.CurrentClamps` | src/parser.rs:153-155 | current is None iff the list is empty, the token under the cursor in range, and the last token past the end |
| `Parsing.ParseExpression` | src/parser.rs:166-178 | the cursor and tokens never move; an Integer/Decimal token gives the literal with the same payload and no new diagnostic; any other token gives None and exactly one new diagnostic with that token's text |
| `Parsing.ParseLoop` | src/parser.rs:187-217 | the loop terminates (a continuing iteration needs two more real tokens), moves the cursor forward, adds at most one diagnostic, and returns a tree whose left spine ends in the tree it started with |
| `Parsing.Parse` | src/parser.rs:184-220 | given a non-empty list whose current token is a literal, the result's left spine ends in that literal, and the diagnostics gain at most one entry |
| `Parsing.ParseLoopFoldsOnePair` | src/parser.rs:187-213 | one iteration on `op literal` after the cursor folds that pair onto the tree and moves the cursor two tokens |
| `Parsing.ParseLoopAtLastLiteral` | src/parser.rs:187-216 | on the last token, a literal, the loop advances past the end, reads that literal again through the clamped cursor, and exits with the tree unchanged |
| `Parsing.ParseLoopFoldsChain` | src/parser.rs:187-217 | inside a `+`/`-` chain, each iteration folds one `op literal` pair into the left-nested tree, with no diagnostic |
| `Parsing.ParseFromChain` | src/parser.rs:184-220 | a token list that starts with a chain is folded up to the chain's last literal |
| `Parsing.ParseFoldsChain` | src/parser.rs:184-220 | `n0 op1 n1 … opk nk` parses to `Binary(…Binary(n0, op1, n1)…, opk, nk)`, with Plus as Add and Minus as Subtract, and no new diagnostic |
| `Parsing.ParseStopsAtNonAdditive` | src/parser.rs:191-216 | after a chain, a token that is not `+`/`-` (e.g. `*`, `/`, a literal) ends the parse without a diagnostic; the rest is ignored |
| `Parsing.ParseDiagnosesNonLiteralOperand` | src/parser.rs:203-207 | `+`/`-` followed by a non-literal adds exactly one diagnostic naming that token, and returns the tree built before the operator |
| `Parsing.ParseDiagnosesTrailingOperator` | src/parser.rs:144-151 | a trailing `+`/`-` is read again through the clamped cursor as its own operand; one diagnostic naming it is added, and the tree before it is returned |
| `Parsing.ParseThenEvaluateTwoIntegers` | src/parser.rs:184-220 | `a + b` / `a - b` token lists parse to one binary node that evaluates to the sum or the difference |
| `Parsing.LongChainsAreNotEvaluable` | src/parser.rs:102-109 | every parsed chain with two or more operators is outside what `evaluate` can handle |

## Left out

- `src/main.rs`: the stdin prompt loop and token printing are I/O. Its inner loop (src/main.rs:23-25) reads the tokens of `Lexing.TokensFrom` only up to the first EndOfFile or BadToken.
- The `println!` calls in `evaluate` (src/parser.rs:93, 97, 105, 108). `Ast.Evaluate` returns the value it would print.
- f64 arithmetic in `evaluate_binary_dec` (src/parser.rs:68-69). A decimal is an opaque 64-bit pattern. The decimal path returns the operator and the two payloads (`DecimalArithmetic`) instead of a floating-point result.
- The exact `format!("{:?}")` text of a diagnostic (src/parser.rs:173). A diagnostic is `ExpectedLiteral(text)`, carrying the offending token's text.
- Integer bounds: `Ast.Isize` assumes a 64-bit target, so `isize` is taken to range from -2^63 to 2^63-1.
- `Ast.EvaluateBinaryInt`: does not model a release build's wrap-around on `isize` overflow. It requires the result to fit, as a debug build (which panics otherwise) does.
- Composing `Parser::new` with the lexer. The lexer's `TokenKind` has no payloads and its tokens no text, so `Parsing.New` takes the token stream as a parameter.
- The `"Expected a + or -"` arm (src/parser.rs:195-199). The `+`/`-` guard in front of it makes it unreachable, and `Parsing.ParseLoop` has no counterpart for it; the `requires IsAdditive` of `Syntax.OperatorOf` is where Dafny confirms that only Plus and Minus reach the operator match. The loop's plain exit models `else { break; }` (src/parser.rs:214-216).
- `Parser::match_token` (src/parser.rs:157-164) is never called. `is_number`/`is_binary` are plain shape tests on `Expression`. `advance` is modelled as the position arithmetic in `Parsing.ParseLoop`.
- `Lexer::new` and `Parser`'s initial state are the datatype constructors `Lexer(input, 0)` and `Parser(tokens, 0, [])`.
