/**
 * The lexer of the calculator: a cursor over one input line that, on every
 * call of `NextTok`, skips a run of whitespace and classifies exactly one
 * character.
 *
 * The input is a sequence of Unicode scalar values. The source compares the
 * position with the input's length in UTF-8 bytes but reads the character
 * with that index, and advances by the UTF-8 width of the character it read;
 * both are modelled (`ByteLen`, `Utf8Len`).
 */
module Lexing {
  import opened Options

  datatype TokenKind = Number | Plus | Minus | Asterisk | Slash | BadToken | EndOfFile

  datatype Token = Token(kind: TokenKind)

  datatype Lexer = Lexer(input: string, position: nat)

  const NUL: char := '\0'
  const FORM_FEED: char := '\U{000C}'

  /** Space, tab, line feed, carriage return and form feed. */
  predicate IsWhitespace(c: char) {
    c == '\n' || c == '\t' || c == FORM_FEED || c == '\r' || c == ' '
  }

  /** Rust's `char::is_digit(10)`: the ASCII digits only. */
  predicate IsDigit(c: char) {
    '0' <= c <= '9'
  }

  /** Number of bytes `c` occupies in UTF-8 (`char::len_utf8`). */
  function Utf8Len(c: char): (n: nat)
    ensures 1 <= n <= 4
    ensures n == 1 <==> (c as int) < 0x80
  {
    if (c as int) < 0x80 then 1
    else if (c as int) < 0x800 then 2
    else if (c as int) < 0x1_0000 then 3
    else 4
  }

  /** Length of `s` in UTF-8 bytes (`str::len`). */
  function ByteLen(s: string): (n: nat)
    ensures n >= |s|
  {
    if |s| == 0 then 0 else Utf8Len(s[0]) + ByteLen(s[1..])
  }

  /** On ASCII text the byte length and the character count coincide, so the
      lexer's bound check is the character bound. */
  lemma {:induction false} ByteLenAscii(s: string)
    requires forall i :: 0 <= i < |s| ==> (s[i] as int) < 0x80
    ensures ByteLen(s) == |s|
  {
    if |s| > 0 {
      assert forall i :: 0 <= i < |s[1..]| ==> s[1..][i] == s[i + 1];
      ByteLenAscii(s[1..]);
    }
  }

  /** The character at index `i`, or NUL past the end: what the lexer sees there. */
  function CharAt(s: string, i: nat): char {
    if i < |s| then s[i] else NUL
  }

  /** `Lexer::peek`: `Some('\0')` at or past the byte length, otherwise the
      `index`-th character, which is absent when the index lies between the
      character count and the byte length. */
  function Peek(lx: Lexer, offset: nat): (r: Option<char>)
    ensures lx.position + offset < |lx.input| ==> r == Some(lx.input[lx.position + offset])
    ensures lx.position + offset >= |lx.input| ==> r == None || r == Some(NUL)
  {
    var index := lx.position + offset;
    if index >= ByteLen(lx.input) then Some(NUL)
    else if index < |lx.input| then Some(lx.input[index])
    else None
  }

  /** `Lexer::current`: the character under the cursor, NUL when there is none. */
  function Current(lx: Lexer): (c: char)
    ensures c == CharAt(lx.input, lx.position)
  {
    match Peek(lx, 0)
    case Some(c) => c
    case None => NUL
  }

  /** `Lexer::lex_number`: one digit becomes one payload-free Number token. */
  function LexNumber(): Token {
    Token(Number)
  }

  /** `q` is where a whitespace skip that starts at `i` stops: every character
      in between is whitespace and the one at `q` (or NUL past the end) is not. */
  ghost predicate SkipsTo(s: string, i: nat, q: nat) {
    && i <= q
    && (forall k :: i <= k < q ==> WhitespaceAt(s, k))
    && !IsWhitespace(CharAt(s, q))
  }

  /** Index `k` holds a whitespace character. */
  predicate WhitespaceAt(s: string, k: nat) {
    k < |s| && IsWhitespace(s[k])
  }

  /** The measure of a cursor: characters left before the end of input. */
  function Remaining(lx: Lexer): nat {
    if lx.position < |lx.input| then |lx.input| - lx.position else 0
  }

  /** `Lexer::eat_whitespaces`. */
  function EatWhitespaces(lx: Lexer): (r: Lexer)
    ensures r.input == lx.input
    ensures SkipsTo(lx.input, lx.position, r.position)
    decreases Remaining(lx)
  {
    var c := Current(lx);
    if IsWhitespace(c) then
      var r := EatWhitespaces(lx.(position := lx.position + Utf8Len(c)));
      assert WhitespaceAt(lx.input, lx.position);
      r
    else lx
  }

  /** The token kind `next_tok` gives the first non-whitespace character. */
  function Classify(c: char): (k: TokenKind)
  {
    match c
    case '\0' => EndOfFile
    case '+' => Plus
    case '-' => Minus
    case '*' => Asterisk
    case '/' => Slash
    case _ => if IsDigit(c) then LexNumber().kind else BadToken
  }

  /** `Lexer::next_tok`: skip whitespace, classify one character, step over it. */
  function NextTok(lx: Lexer): (r: (Token, Lexer))
    ensures r.1.input == lx.input
    ensures r.1.position > lx.position
    ensures r.0.kind != EndOfFile ==> lx.position < |lx.input|
    ensures lx.position >= |lx.input| ==> r.0.kind == EndOfFile && r.1.position == lx.position + 1
  {
    var ws := EatWhitespaces(lx);
    var c := Current(ws);
    (Token(Classify(c)), ws.(position := ws.position + Utf8Len(c)))
  }

  /** The tokens of repeated `next_tok` calls up to and including the first
      EndOfFile: what `Parser::new` drains from the lexer. */
  function TokensFrom(lx: Lexer): (r: seq<Token>)
    ensures 1 <= |r|
    ensures r[|r| - 1].kind == EndOfFile
    ensures forall i :: 0 <= i < |r| - 1 ==> r[i].kind != EndOfFile
    ensures lx.position >= |lx.input| ==> r == [Token(EndOfFile)]
    ensures |r| <= Remaining(lx) + 1
    decreases Remaining(lx)
  {
    var step := NextTok(lx);
    if step.0.kind == EndOfFile then [step.0] else [step.0] + TokensFrom(step.1)
  }

  /** All tokens of one input line. */
  function Tokenize(input: string): seq<Token> {
    TokensFrom(Lexer(input, 0))
  }

  /** The tokens of exactly `k` successive `next_tok` calls, and the cursor after them. */
  function Steps(lx: Lexer, k: nat): (r: (seq<Token>, Lexer))
    ensures |r.0| == k
    ensures r.1.input == lx.input
    ensures r.1.position >= lx.position + k
    decreases k
  {
    if k == 0 then ([], lx)
    else
      var step := NextTok(lx);
      var rest := Steps(step.1, k - 1);
      ([step.0] + rest.0, rest.1)
  }

  /** The tokens up to the first EndOfFile are the start of every longer run of
      `next_tok` calls from the same cursor. */
  lemma {:induction false} TokensFromPrefixOfSteps(lx: Lexer, k: nat)
    requires |TokensFrom(lx)| <= k
    ensures Steps(lx, k).0[..|TokensFrom(lx)|] == TokensFrom(lx)
    decreases Remaining(lx)
  {
    var step := NextTok(lx);
    var rest := Steps(step.1, k - 1).0;
    assert Steps(lx, k).0 == [step.0] + rest;
    if step.0.kind == EndOfFile {
      assert TokensFrom(lx) == [step.0];
      assert ([step.0] + rest)[..1] == [step.0];
    } else {
      assert TokensFrom(lx) == [step.0] + TokensFrom(step.1);
      var n := |TokensFrom(step.1)|;
      TokensFromPrefixOfSteps(step.1, k - 1);
      assert ([step.0] + rest)[..n + 1] == [step.0] + rest[..n];
    }
  }

  // ---------------------------------------------------------------------------
  // Properties
  // ---------------------------------------------------------------------------

  /** A whitespace skip has exactly one stopping point. */
  lemma {:induction false} SkipsToUnique(s: string, i: nat, q1: nat, q2: nat)
    requires SkipsTo(s, i, q1) && SkipsTo(s, i, q2)
    ensures q1 == q2
  {
    assert q1 < q2 ==> WhitespaceAt(s, q1);
    assert q2 < q1 ==> WhitespaceAt(s, q2);
  }

  /** `next_tok` classifies the first non-whitespace character `c` at `q`:
      NUL (also past the end) gives EndOfFile, the four operator characters
      their operator tokens, a decimal digit a Number, anything else BadToken;
      the cursor then stands just behind `c`. Whitespace is never classified. */
  lemma {:induction false} NextTokClassifies(lx: Lexer, q: nat)
    requires SkipsTo(lx.input, lx.position, q)
    ensures var c := CharAt(lx.input, q);
            var r := NextTok(lx);
            && !IsWhitespace(c)
            && r.1.position == q + Utf8Len(c)
            && (r.0.kind == EndOfFile <==> c == NUL)
            && (r.0.kind == Plus <==> c == '+')
            && (r.0.kind == Minus <==> c == '-')
            && (r.0.kind == Asterisk <==> c == '*')
            && (r.0.kind == Slash <==> c == '/')
            && (r.0.kind == Number <==> IsDigit(c))
            && (r.0.kind == BadToken <==> c != NUL && c != '+' && c != '-' && c != '*' && c != '/' && !IsDigit(c))
  {
    var ws := EatWhitespaces(lx);
    SkipsToUnique(lx.input, lx.position, ws.position, q);
  }

  /** Once the cursor is at or past the end, every further call yields EndOfFile. */
  lemma {:induction false} EndOfFileIsSticky(lx: Lexer, k: nat)
    requires lx.position >= |lx.input|
    ensures forall i :: 0 <= i < k ==> Steps(lx, k).0[i].kind == EndOfFile
    decreases k
  {
    if k > 0 {
      var step := NextTok(lx);
      EndOfFileIsSticky(step.1, k - 1);
      assert Steps(lx, k).0 == [step.0] + Steps(step.1, k - 1).0;
    }
  }

  /** Call number `j + 1` from a cursor is call number `j` from the cursor the
      first call leaves. */
  lemma {:induction false} StepsTail(lx: Lexer, k: nat, j: nat)
    requires 0 < j < k
    ensures Steps(lx, k).0[j] == Steps(NextTok(lx).1, k - 1).0[j - 1]
  {
    var rest := Steps(NextTok(lx).1, k - 1).0;
    assert Steps(lx, k).0 == [NextTok(lx).0] + rest;
  }

  /** From a cursor with `n` characters left, call number `k` yields EndOfFile
      whenever `k > n`. */
  lemma {:induction false} EndOfFileAfterRemaining(lx: Lexer, k: nat)
    requires Remaining(lx) < k
    ensures Steps(lx, k).0[k - 1].kind == EndOfFile
    decreases Remaining(lx)
  {
    if lx.position >= |lx.input| {
      EndOfFileIsSticky(lx, k);
    } else {
      var next := NextTok(lx).1;
      assert Remaining(next) < Remaining(lx);
      EndOfFileAfterRemaining(next, k - 1);
      StepsTail(lx, k, k - 1);
    }
  }

  /** Every call advances the cursor, so on an input of `n` characters the
      call number `n + 1` at the latest yields EndOfFile. */
  lemma {:induction false} ReachesEndWithin(input: string)
    ensures Steps(Lexer(input, 0), |input| + 1).0[|input|].kind == EndOfFile
  {
    EndOfFileAfterRemaining(Lexer(input, 0), |input| + 1);
  }

  /** Only BadToken can stand for a multi-byte character: every other kind
      comes from one ASCII, non-whitespace character, EndOfFile exactly from
      NUL and Number exactly from a decimal digit. */
  lemma {:induction false} ClassifyKinds(c: char)
    ensures Classify(c) == EndOfFile <==> c == NUL
    ensures Classify(c) == Number <==> IsDigit(c)
    ensures Classify(c) != BadToken ==> Utf8Len(c) == 1 && !IsWhitespace(c)
  {
  }

  /** Whitespace is one byte wide and never the end-of-input NUL. */
  lemma {:induction false} WhitespaceIsOneByte(c: char)
    requires IsWhitespace(c)
    ensures c != NUL && Utf8Len(c) == 1 && Classify(c) == BadToken
  {
  }

  /** `peek` yields nothing exactly when the index lies at or past the
      character count but before the byte length, which needs a non-ASCII
      character in the input. */
  lemma {:induction false} PeekAbsentBetweenLengths(lx: Lexer, offset: nat)
    ensures Peek(lx, offset).None? <==> |lx.input| <= lx.position + offset < ByteLen(lx.input)
  {
  }

  /** One token per character, classified as `next_tok` classifies it. */
  function ClassifyEach(s: string): seq<Token> {
    if |s| == 0 then [] else [Token(Classify(s[0]))] + ClassifyEach(s[1..])
  }

  /** A character that `next_tok` steps over in one position and that does not end the line. */
  predicate Dense(c: char) {
    !IsWhitespace(c) && c != NUL && (c as int) < 0x80
  }

  /** A line without whitespace, NUL or non-ASCII characters lexes character by
      character: each call consumes exactly one character and yields its token. */
  lemma {:induction false} DenseLineLexesCharByChar(s: string, i: nat)
    requires forall k :: 0 <= k < |s| ==> Dense(s[k])
    requires i <= |s|
    ensures TokensFrom(Lexer(s, i)) == ClassifyEach(s[i..]) + [Token(EndOfFile)]
    decreases |s| - i
  {
    if i < |s| {
      assert SkipsTo(s, i, i) by {
        assert Dense(s[i]);
      }
      TokensFromStep(Lexer(s, i), i);
      DenseLineLexesCharByChar(s, i + 1);
      assert ClassifyEach(s[i..]) == [Token(Classify(s[i]))] + ClassifyEach(s[i + 1..]) by {
        assert s[i..][1..] == s[i + 1..];
      }
    } else {
      assert s[i..] == [];
    }
  }

  /** An all-digit line lexes to one Number token per digit, then EndOfFile:
      a numeral of several digits is several tokens. */
  lemma {:induction false} DigitsLexOnePerDigit(s: string)
    requires forall k :: 0 <= k < |s| ==> IsDigit(s[k])
    ensures Tokenize(s) == seq(|s|, _ => Token(Number)) + [Token(EndOfFile)]
  {
    DenseLineLexesCharByChar(s, 0);
    AllDigitsClassifyAsNumber(s);
    assert s[0..] == s;
  }

  lemma {:induction false} AllDigitsClassifyAsNumber(s: string)
    requires forall k :: 0 <= k < |s| ==> IsDigit(s[k])
    ensures ClassifyEach(s) == seq(|s|, _ => Token(Number))
  {
    if |s| > 0 {
      AllDigitsClassifyAsNumber(s[1..]);
      assert seq(|s|, _ => Token(Number)) == [Token(Number)] + seq(|s| - 1, _ => Token(Number));
    }
  }

  /** A whitespace skip sees the same characters behind a prefix: the shifted
      stopping point is a stopping point of the longer input, and there is only one. */
  lemma {:induction false} EatWhitespacesShift(pre: string, s: string, i: nat)
    ensures EatWhitespaces(Lexer(pre + s, |pre| + i)).position == |pre| + EatWhitespaces(Lexer(s, i)).position
  {
    var q := EatWhitespaces(Lexer(s, i)).position;
    var t := pre + s;
    forall k | |pre| + i <= k < |pre| + q
      ensures WhitespaceAt(t, k)
    {
      assert WhitespaceAt(s, k - |pre|);
      assert t[k] == s[k - |pre|];
    }
    if q < |s| {
      assert t[|pre| + q] == s[q];
    }
    assert CharAt(t, |pre| + q) == CharAt(s, q);
    SkipsToUnique(t, |pre| + i, EatWhitespaces(Lexer(t, |pre| + i)).position, |pre| + q);
  }

  /** `next_tok` behind a prefix yields the same token and the shifted cursor. */
  lemma {:induction false} NextTokShift(pre: string, s: string, i: nat)
    ensures NextTok(Lexer(pre + s, |pre| + i)).0 == NextTok(Lexer(s, i)).0
    ensures NextTok(Lexer(pre + s, |pre| + i)).1.position == |pre| + NextTok(Lexer(s, i)).1.position
  {
    EatWhitespacesShift(pre, s, i);
    var q := EatWhitespaces(Lexer(s, i)).position;
    if q < |s| { assert (pre + s)[|pre| + q] == s[q]; }
    assert CharAt(pre + s, |pre| + q) == CharAt(s, q);
  }

  /** Lexing from a position behind a prefix depends only on what follows it. */
  lemma {:induction false} TokensFromShift(pre: string, s: string, i: nat)
    ensures TokensFrom(Lexer(pre + s, |pre| + i)) == TokensFrom(Lexer(s, i))
    decreases Remaining(Lexer(s, i))
  {
    var big := Lexer(pre + s, |pre| + i);
    var small := Lexer(s, i);
    NextTokShift(pre, s, i);
    var step := NextTok(small);
    var shifted := NextTok(big);
    if step.0.kind == EndOfFile {
      assert TokensFrom(small) == [step.0] && TokensFrom(big) == [shifted.0];
    } else {
      var next := step.1.position;
      TokensFromShift(pre, s, next);
      assert step.1 == Lexer(s, next) && shifted.1 == Lexer(pre + s, |pre| + next);
      assert TokensFrom(small) == [step.0] + TokensFrom(step.1);
      assert TokensFrom(big) == [shifted.0] + TokensFrom(shifted.1);
    }
  }

  /** Starting a whitespace skip anywhere inside a run of whitespace ends it
      at the same place, so the token `next_tok` reads is the same. */
  lemma {:induction false} TokensFromSkipsRun(t: string, i: nat, j: nat)
    requires i <= j
    requires forall k :: i <= k < j ==> WhitespaceAt(t, k)
    ensures TokensFrom(Lexer(t, i)) == TokensFrom(Lexer(t, j))
  {
    var qi := EatWhitespaces(Lexer(t, i)).position;
    var qj := EatWhitespaces(Lexer(t, j)).position;
    assert SkipsTo(t, i, qj) by {
      assert forall k :: i <= k < qj ==> WhitespaceAt(t, k) by {
        forall k | i <= k < qj ensures WhitespaceAt(t, k) {
          if k >= j { assert j <= k < qj; }
        }
      }
    }
    SkipsToUnique(t, i, qi, qj);
    assert NextTok(Lexer(t, i)) == NextTok(Lexer(t, j));
  }

  /** Whitespace never becomes a token: a leading run of it leaves the token
      sequence of a line unchanged. */
  lemma {:induction false} LeadingWhitespaceIgnored(ws: string, s: string)
    requires forall k :: 0 <= k < |ws| ==> IsWhitespace(ws[k])
    ensures Tokenize(ws + s) == Tokenize(s)
  {
    var t := ws + s;
    forall k | 0 <= k < |ws| ensures WhitespaceAt(t, k) {
      assert t[k] == ws[k];
    }
    TokensFromSkipsRun(t, 0, |ws|);
    TokensFromShift(ws, s, 0);
  }

  /** One `next_tok` step of a line, when `q` is where its whitespace skip stops
      and the character there steps over in one position and is not NUL. */
  lemma {:induction false} TokensFromStep(lx: Lexer, q: nat)
    requires SkipsTo(lx.input, lx.position, q)
    requires q < |lx.input| && Dense(lx.input[q])
    ensures TokensFrom(lx) == [Token(Classify(lx.input[q]))] + TokensFrom(Lexer(lx.input, q + 1))
  {
    NextTokClassifies(lx, q);
  }

  /** A leading character that is neither whitespace, NUL nor multi-byte is
      one token of its own, followed by the tokens of the rest of the line. */
  lemma {:induction false} LeadingCharIsOneToken(a: char, u: string)
    requires Dense(a)
    ensures Tokenize([a] + u) == [Token(Classify(a))] + Tokenize(u)
  {
    var t := [a] + u;
    TokensFromStep(Lexer(t, 0), 0);
    TokensFromShift([a], u, 0);
  }

  /** A whitespace run and one more character: a single token. */
  lemma {:induction false} WhitespaceThenOneChar(ws: string, b: char)
    requires forall k :: 0 <= k < |ws| ==> IsWhitespace(ws[k])
    requires Dense(b)
    ensures Tokenize(ws + [b]) == [Token(Classify(b)), Token(EndOfFile)]
  {
    LeadingWhitespaceIgnored(ws, [b]);
    DenseLineLexesCharByChar([b], 0);
    assert [b][0..] == [b];
  }

  /** First unit test of lexer.rs, for every pair of whitespace runs (the test
      uses eight spaces for both, `"        +        /"`): whitespace around
      operators is skipped and never becomes a token. */
  lemma {:induction false} WhitespaceAroundOperatorsSkipped(ws1: string, ws2: string)
    requires forall k :: 0 <= k < |ws1| ==> IsWhitespace(ws1[k])
    requires forall k :: 0 <= k < |ws2| ==> IsWhitespace(ws2[k])
    ensures Tokenize(ws1 + ['+'] + ws2 + ['/']) == [Token(Plus), Token(Slash), Token(EndOfFile)]
  {
    var u := ws2 + ['/'];
    var t := ['+'] + u;
    assert Classify('/') == Slash && Classify('+') == Plus;
    assert Tokenize(u) == [Token(Slash), Token(EndOfFile)] by {
      WhitespaceThenOneChar(ws2, '/');
    }
    assert Tokenize(t) == [Token(Plus)] + Tokenize(u) by {
      LeadingCharIsOneToken('+', u);
    }
    assert ws1 + ['+'] + ws2 + ['/'] == ws1 + t;
    LeadingWhitespaceIgnored(ws1, t);
  }

  /** Second unit test of lexer.rs: each operator character is its own token,
      and `-` is always Minus. */
  lemma {:induction false} OperatorsLexInOrder()
    ensures Tokenize("+-*/") == [Token(Plus), Token(Minus), Token(Asterisk), Token(Slash), Token(EndOfFile)]
  {
    var s := "+-*/";
    assert s[0..] == s;
    assert ClassifyEach(s) == [Token(Plus), Token(Minus), Token(Asterisk), Token(Slash)];
    assert TokensFrom(Lexer(s, 0)) == ClassifyEach(s) + [Token(EndOfFile)] by {
      DenseLineLexesCharByChar(s, 0);
    }
  }
}
