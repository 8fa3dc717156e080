/**
 * The tokens the parser consumes. Their kinds carry the numeric payload and
 * each token its source text, which the lexer shown in `Lexing` does not
 * produce; the parser is therefore modelled over an abstract token stream.
 */
module Syntax {
  import Ast

  datatype TokenKind =
    | Integer(value: Ast.Isize)
    | Decimal(bits: Ast.F64)
    | Plus
    | Minus
    | Asterisk
    | Slash
    | BadToken
    | EndOfFile

  datatype Token = Token(kind: TokenKind, text: string)

  predicate IsLiteral(k: TokenKind) {
    k.Integer? || k.Decimal?
  }

  predicate IsAdditive(k: TokenKind) {
    k == Plus || k == Minus
  }

  /** The literal expression a numeric token stands for. */
  function LiteralOf(k: TokenKind): Ast.Expression
    requires IsLiteral(k)
  {
    if k.Integer? then Ast.Literal(Ast.Integer(k.value)) else Ast.Literal(Ast.Decimal(k.bits))
  }

  /** The operator `parse` maps an additive token to. */
  function OperatorOf(k: TokenKind): Ast.Operator
    requires IsAdditive(k)
  {
    if k == Plus then Ast.Add else Ast.Subtract
  }
}

/**
 * `Parser` of parser.rs: token filtering, a clamped cursor, and the
 * left-associative `+`/`-` fold with diagnostics.
 */
module Parsing {
  import opened Options
  import opened Syntax
  import Ast

  /** The `"Expected an integer or decimal, but got a {:?}"` diagnostic,
      carrying the offending token's text. */
  datatype Diagnostic = ExpectedLiteral(got: string)

  datatype Parser = Parser(tokens: seq<Token>, position: nat, diagnostics: seq<Diagnostic>)

  /** A token list as the constructor stores it. */
  predicate Filtered(ts: seq<Token>) {
    forall i :: 0 <= i < |ts| ==> ts[i].kind != EndOfFile && ts[i].kind != BadToken
  }

  /** The tokens `Parser::new` keeps from a token stream: those before the first
      EndOfFile, in order, without the BadTokens. */
  function Kept(stream: seq<Token>): (r: seq<Token>)
    ensures Filtered(r)
    ensures |r| <= |stream|
    ensures Filtered(stream) ==> r == stream
  {
    if |stream| == 0 then []
    else if stream[0].kind == EndOfFile then []
    else if stream[0].kind == BadToken then Kept(stream[1..])
    else [stream[0]] + Kept(stream[1..])
  }

  /** `Parser::new`: drain the token stream up to the first EndOfFile, dropping
      BadTokens; cursor at 0, no diagnostics. */
  method New(stream: seq<Token>) returns (p: Parser)
    ensures p.tokens == Kept(stream)
    ensures p.position == 0 && p.diagnostics == []
  {
    var tokens: seq<Token> := [];
    var i := 0;
    while i < |stream|
      invariant 0 <= i <= |stream|
      invariant tokens + Kept(stream[i..]) == Kept(stream)
    {
      var token := stream[i];
      assert stream[i..][0] == token && stream[i..][1..] == stream[i + 1..];
      if token.kind == EndOfFile {
        break;
      } else if token.kind == BadToken {
        i := i + 1;
        continue;
      }
      tokens := tokens + [token];
      i := i + 1;
    }
    p := Parser(tokens, 0, []);
  }

  /** `Parser::peek`: the token `offset` places ahead, clamped to the last
      token; None only for an empty list. */
  function Peek(p: Parser, offset: nat): (r: Option<Token>)
    ensures r.None? <==> |p.tokens| == 0
    ensures p.position + offset < |p.tokens| ==> r == Some(p.tokens[p.position + offset])
    ensures p.position + offset >= |p.tokens| > 0 ==> r == Some(p.tokens[|p.tokens| - 1])
  {
    var index := p.position + offset;
    if index >= |p.tokens| then
      if |p.tokens| == 0 then None else Some(p.tokens[|p.tokens| - 1])
    else Some(p.tokens[index])
  }

  /** `Parser::current`. */
  function Current(p: Parser): Option<Token> {
    Peek(p, 0)
  }

  /** `current` is the token under the cursor, or the last token once the
      cursor has run past the end; None only for an empty list. */
  lemma {:induction false} CurrentClamps(p: Parser)
    ensures Current(p).None? <==> |p.tokens| == 0
    ensures p.position < |p.tokens| ==> Current(p) == Some(p.tokens[p.position])
    ensures p.position >= |p.tokens| > 0 ==> Current(p) == Some(p.tokens[|p.tokens| - 1])
  {
  }

  /** `Parser::parse_expression`: a literal for a numeric token, otherwise one
      more diagnostic and no expression; the cursor does not move. The
      `unwrap` panics on an empty token list. */
  function ParseExpression(p: Parser): (r: (Option<Ast.Expression>, Parser))
    requires |p.tokens| > 0
    ensures r.1.tokens == p.tokens && r.1.position == p.position
    ensures r.0.Some? <==> IsLiteral(Current(p).value.kind)
    ensures r.0.Some? ==> r.0.value == LiteralOf(Current(p).value.kind) && r.1.diagnostics == p.diagnostics
    ensures r.0.None? ==> r.1.diagnostics == p.diagnostics + [ExpectedLiteral(Current(p).value.text)]
  {
    var token := Current(p).value;
    match token.kind
    case Integer(v) => (Some(Ast.Literal(Ast.Integer(v))), p)
    case Decimal(v) => (Some(Ast.Literal(Ast.Decimal(v))), p)
    case _ => (None, p.(diagnostics := p.diagnostics + [ExpectedLiteral(token.text)]))
  }

  /** How many tokens lie at or after the cursor. */
  function Remaining(p: Parser): nat {
    if p.position < |p.tokens| then |p.tokens| - p.position else 0
  }

  /** `e` is `base` with zero or more `Binary` nodes wrapped around it on the left. */
  predicate LeftSpine(e: Ast.Expression, base: Ast.Expression) {
    e == base || (e.Binary? && LeftSpine(e.left, base))
  }

  /** Wrapping `base` in one more left node keeps `e` on a left spine over `base`. */
  lemma {:induction false} LeftSpineThroughNode(e: Ast.Expression, base: Ast.Expression, op: Ast.Operator, right: Ast.Expression)
    requires LeftSpine(e, Ast.Binary(base, op, right))
    ensures LeftSpine(e, base)
  {
    if e != Ast.Binary(base, op, right) {
      LeftSpineThroughNode(e.left, base, op, right);
    }
  }

  /** `d'` is `d` with at most one diagnostic appended. */
  predicate AtMostOneMore(d: seq<Diagnostic>, d': seq<Diagnostic>) {
    d' == d || (|d'| == |d| + 1 && d'[..|d|] == d)
  }

  /** The `while` loop of `Parser::parse`, entered with `left` parsed and the
      cursor on it. The `"Expected a + or -"` arm inside the loop sits behind a
      guard that admits only Plus and Minus, so it cannot run and has no
      counterpart here; `OperatorOf`'s precondition is where that is checked.
      The plain exit is the `else { break; }` on any other token. */
  function ParseLoop(p: Parser, left: Ast.Expression): (r: (Ast.Expression, Parser))
    requires |p.tokens| > 0
    ensures r.1.tokens == p.tokens
    ensures r.1.position > p.position
    ensures AtMostOneMore(p.diagnostics, r.1.diagnostics)
    ensures LeftSpine(r.0, left)
    decreases Remaining(p)
  {
    var p1 := p.(position := p.position + 1);
    var token := Current(p1).value;
    if IsAdditive(token.kind) then
      var operator := OperatorOf(token.kind);
      var p2 := p1.(position := p1.position + 1);
      var right := ParseExpression(p2);
      if right.0.None? then (left, right.1)
      else
        // A literal after an operator is a real token, not the clamped last
        // one: the loop continues only while two more tokens exist.
        assert p.position + 2 >= |p.tokens| ==> Current(p2) == Current(p1);
        var r := ParseLoop(right.1, Ast.Binary(left, operator, right.0.value));
        LeftSpineThroughNode(r.0, left, operator, right.0.value);
        r
    else (left, p1)
  }

  /** `Parser::parse`. Its `unwrap`s panic unless the token list is non-empty
      and the token under the cursor is a literal. */
  function Parse(p: Parser): (r: (Ast.Expression, Parser))
    requires |p.tokens| > 0 && IsLiteral(Current(p).value.kind)
    ensures r.1.tokens == p.tokens
    ensures AtMostOneMore(p.diagnostics, r.1.diagnostics)
    ensures LeftSpine(r.0, LiteralOf(Current(p).value.kind))
  {
    var first := ParseExpression(p);
    ParseLoop(first.1, first.0.value)
  }

  // ---------------------------------------------------------------------------
  // Properties
  // ---------------------------------------------------------------------------

  /** A stream without EndOfFile contributes all its kept tokens, and whatever
      follows is kept after them. */
  lemma {:induction false} KeptAppend(a: seq<Token>, b: seq<Token>)
    requires forall i :: 0 <= i < |a| ==> a[i].kind != EndOfFile
    ensures Kept(a + b) == Kept(a) + Kept(b)
  {
    if |a| == 0 {
      assert a + b == b;
    } else {
      assert (a + b)[0] == a[0];
      assert (a + b)[1..] == a[1..] + b;
      KeptAppend(a[1..], b);
      if a[0].kind == BadToken {
        assert Kept(a + b) == Kept(a[1..] + b);
      } else {
        assert Kept(a + b) == [a[0]] + Kept(a[1..] + b);
      }
    }
  }

  /** Nothing after the first EndOfFile reaches the parser. */
  lemma {:induction false} KeptStopsAtEndOfFile(a: seq<Token>, eof: Token, b: seq<Token>)
    requires forall i :: 0 <= i < |a| ==> a[i].kind != EndOfFile
    requires eof.kind == EndOfFile
    ensures Kept(a + [eof] + b) == Kept(a)
  {
    KeptAppend(a, [eof] + b);
    assert a + [eof] + b == a + ([eof] + b);
  }

  /** BadTokens are dropped wherever they occur. */
  lemma {:induction false} KeptDropsBadToken(a: seq<Token>, bad: Token, b: seq<Token>)
    requires forall i :: 0 <= i < |a| ==> a[i].kind != EndOfFile
    requires bad.kind == BadToken
    ensures Kept(a + [bad] + b) == Kept(a + b)
  {
    KeptAppend(a, [bad] + b);
    KeptAppend(a, b);
    assert a + [bad] + b == a + ([bad] + b);
    assert ([bad] + b)[1..] == b;
  }

  /** `n0 op1 n1 ... opk nk`: literals at even places, `+`/`-` at odd places. */
  predicate Chain(ts: seq<Token>) {
    && |ts| % 2 == 1
    && forall i :: 0 <= i < |ts| ==> if i % 2 == 0 then IsLiteral(ts[i].kind) else IsAdditive(ts[i].kind)
  }

  /** A chain has odd length, so its last token is a literal. */
  lemma {:induction false} ChainEndsInLiteral(ts: seq<Token>)
    requires Chain(ts)
    ensures IsLiteral(ts[|ts| - 1].kind)
  {
    var last := |ts| - 1;
    assert last % 2 == 0;
  }

  lemma {:induction false} ChainPrefix(ts: seq<Token>, m: nat)
    requires Chain(ts) && m % 2 == 1 && m <= |ts|
    ensures Chain(ts[..m])
  {
    assert forall i :: 0 <= i < m ==> ts[..m][i] == ts[i];
  }

  /** The left-nested tree `Binary(...Binary(n0, op1, n1)..., opk, nk)` of a chain,
      with Plus as Add and Minus as Subtract. */
  function LeftNested(ts: seq<Token>): Ast.Expression
    requires Chain(ts)
    decreases |ts|
  {
    if |ts| == 1 then LiteralOf(ts[0].kind)
    else
      ChainPrefix(ts, |ts| - 2);
      Ast.Binary(LeftNested(ts[..|ts| - 2]), OperatorOf(ts[|ts| - 2].kind), LiteralOf(ts[|ts| - 1].kind))
  }

  /** One iteration of the loop on `op literal`: the pair is folded into the
      tree and the cursor moves onto the literal, with no diagnostic. */
  lemma {:induction false} ParseLoopFoldsOnePair(ts: seq<Token>, j: nat, d: seq<Diagnostic>, left: Ast.Expression)
    requires j + 2 < |ts| && IsAdditive(ts[j + 1].kind) && IsLiteral(ts[j + 2].kind)
    ensures ParseLoop(Parser(ts, j, d), left)
            == ParseLoop(Parser(ts, j + 2, d), Ast.Binary(left, OperatorOf(ts[j + 1].kind), LiteralOf(ts[j + 2].kind)))
  {
    assert Current(Parser(ts, j + 1, d)) == Some(ts[j + 1]);
    assert Current(Parser(ts, j + 2, d)) == Some(ts[j + 2]);
  }

  /** Parity of the places after an even place `j` of an odd-length chain. */
  lemma {:induction false} NextPlacesInChain(j: nat, n: nat)
    requires j % 2 == 0 && n % 2 == 1 && j < n - 1
    ensures j + 2 < n && (j + 1) % 2 == 1 && (j + 2) % 2 == 0 && (j + 3) % 2 == 1
  {
  }

  /** Inside a chain, the literal at `j` is followed by an operator and a
      literal that extend the chain by one pair. */
  lemma {:induction false} ChainExtends(all: seq<Token>, n: nat, j: nat)
    requires n <= |all| && Chain(all[..n])
    requires j % 2 == 0 && j < n - 1
    ensures j + 2 < n && (j + 2) % 2 == 0
    ensures IsAdditive(all[j + 1].kind) && IsLiteral(all[j + 2].kind)
    ensures Chain(all[..j + 1]) && Chain(all[..j + 3])
    ensures LeftNested(all[..j + 3])
            == Ast.Binary(LeftNested(all[..j + 1]), OperatorOf(all[j + 1].kind), LiteralOf(all[j + 2].kind))
  {
    NextPlacesInChain(j, n);
    assert all[..n][j + 1] == all[j + 1] && all[..n][j + 2] == all[j + 2];
    ChainPrefix(all[..n], j + 1);
    ChainPrefix(all[..n], j + 3);
    assert all[..n][..j + 1] == all[..j + 1];
    assert all[..n][..j + 3] == all[..j + 3];
    assert all[..j + 3][..j + 1] == all[..j + 1];
  }

  /** Inside a chain, the loop folds one `op literal` pair per iteration, so
      from any literal of the chain it reaches the last one with the
      left-nested tree of the whole chain and no new diagnostic. */
  lemma {:induction false} ParseLoopFoldsChain(all: seq<Token>, n: nat, j: nat, d: seq<Diagnostic>)
    requires n <= |all| && Chain(all[..n])
    requires j % 2 == 0 && j < n
    ensures Chain(all[..j + 1])
    ensures ParseLoop(Parser(all, j, d), LeftNested(all[..j + 1])) == ParseLoop(Parser(all, n - 1, d), LeftNested(all[..n]))
    decreases n - j
  {
    if j < n - 1 {
      ChainExtends(all, n, j);
      ParseLoopFoldsOnePair(all, j, d, LeftNested(all[..j + 1]));
      ParseLoopFoldsChain(all, n, j + 2, d);
    } else {
      assert all[..j + 1] == all[..n];
    }
  }

  /** A token list that starts with a chain: `parse` folds the whole chain
      and then sits on its last literal, with no new diagnostic. */
  lemma {:induction false} ParseFromChain(all: seq<Token>, n: nat, d: seq<Diagnostic>)
    requires n <= |all| && Chain(all[..n])
    ensures |all| > 0 && IsLiteral(Current(Parser(all, 0, d)).value.kind)
    ensures Parse(Parser(all, 0, d)) == ParseLoop(Parser(all, n - 1, d), LeftNested(all[..n]))
  {
    assert all[..n][0] == all[0];
    assert all[..1] == all[..n][..1];
    assert LeftNested(all[..1]) == LiteralOf(all[0].kind);
    ParseLoopFoldsChain(all, n, 0, d);
  }

  /** A token list that is exactly a chain parses to its left-nested tree,
      with no diagnostic; the trailing clamped token is the last literal, which
      ends the loop. */
  lemma {:induction false} ParseFoldsChain(ts: seq<Token>, d: seq<Diagnostic>)
    requires Chain(ts)
    ensures Parse(Parser(ts, 0, d)).0 == LeftNested(ts)
    ensures Parse(Parser(ts, 0, d)).1 == Parser(ts, |ts|, d)
  {
    assert ts[..|ts|] == ts;
    ParseFromChain(ts, |ts|, d);
    ChainEndsInLiteral(ts);
    ParseLoopAtLastLiteral(ts, d, LeftNested(ts));
  }

  /** On the last token, the loop reads the clamped last token again; a
      literal there ends the loop with the tree unchanged. */
  lemma {:induction false} ParseLoopAtLastLiteral(ts: seq<Token>, d: seq<Diagnostic>, left: Ast.Expression)
    requires |ts| > 0 && IsLiteral(ts[|ts| - 1].kind)
    ensures ParseLoop(Parser(ts, |ts| - 1, d), left) == (left, Parser(ts, |ts|, d))
  {
    assert Current(Parser(ts, |ts|, d)) == Some(ts[|ts| - 1]);
  }

  /** After a chain, a token other than Plus or Minus (Asterisk, Slash,
      another literal) ends the fold silently: the rest is ignored and no
      diagnostic is added. */
  lemma {:induction false} ParseStopsAtNonAdditive(ts: seq<Token>, t: Token, rest: seq<Token>, d: seq<Diagnostic>)
    requires Chain(ts) && !IsAdditive(t.kind)
    ensures var all := ts + [t] + rest;
            && Parse(Parser(all, 0, d)).0 == LeftNested(ts)
            && Parse(Parser(all, 0, d)).1 == Parser(all, |ts|, d)
  {
    var all := ts + [t] + rest;
    assert all[..|ts|] == ts;
    ParseFromChain(all, |ts|, d);
    assert all[|ts|] == t;
  }

  /** After a chain, `+` or `-` followed by a token that is not a literal
      adds exactly one diagnostic naming that token and returns the tree built
      before the operator. */
  lemma {:induction false} ParseDiagnosesNonLiteralOperand(ts: seq<Token>, op: Token, t: Token, rest: seq<Token>, d: seq<Diagnostic>)
    requires Chain(ts) && IsAdditive(op.kind) && !IsLiteral(t.kind)
    ensures var all := ts + [op, t] + rest;
            && Parse(Parser(all, 0, d)).0 == LeftNested(ts)
            && Parse(Parser(all, 0, d)).1 == Parser(all, |ts| + 1, d + [ExpectedLiteral(t.text)])
  {
    var all := ts + [op, t] + rest;
    assert all[..|ts|] == ts;
    ParseFromChain(all, |ts|, d);
    assert all[|ts|] == op && all[|ts| + 1] == t;
  }

  /** A trailing `+` or `-`: the clamped cursor reads the operator itself as
      the missing operand, so the diagnostic names the operator, and the tree
      built before it is returned. */
  lemma {:induction false} ParseDiagnosesTrailingOperator(ts: seq<Token>, op: Token, d: seq<Diagnostic>)
    requires Chain(ts) && IsAdditive(op.kind)
    ensures var all := ts + [op];
            && Parse(Parser(all, 0, d)).0 == LeftNested(ts)
            && Parse(Parser(all, 0, d)).1 == Parser(all, |ts| + 1, d + [ExpectedLiteral(op.text)])
  {
    var all := ts + [op];
    assert all[..|ts|] == ts;
    ParseFromChain(all, |ts|, d);
    assert all[|ts|] == op;
  }

  /** `"3+4"`-shaped input: parsing and evaluating gives the sum (or the
      difference for `-`) when it fits in `isize`. */
  lemma {:induction false} ParseThenEvaluateTwoIntegers(a: Ast.Isize, op: Token, b: Ast.Isize, ta: string, tb: string)
    requires IsAdditive(op.kind)
    requires Ast.ISIZE_MIN <= (if op.kind == Plus then a + b else a - b) <= Ast.ISIZE_MAX
    ensures var ts := [Token(Integer(a), ta), op, Token(Integer(b), tb)];
            var e := Parse(Parser(ts, 0, [])).0;
            && e == Ast.Binary(Ast.Literal(Ast.Integer(a)), OperatorOf(op.kind), Ast.Literal(Ast.Integer(b)))
            && Ast.Evaluate(e) == Ast.IntOutput(if op.kind == Plus then a + b else a - b)
  {
    var ts := [Token(Integer(a), ta), op, Token(Integer(b), tb)];
    ParseFoldsChain(ts, []);
    assert ts[..1] == [Token(Integer(a), ta)];
  }

  /** A chain with two or more operators parses to a tree whose left child is
      a binary node, which `evaluate` cannot handle (`unreachable!()`). */
  lemma {:induction false} LongChainsAreNotEvaluable(ts: seq<Token>)
    requires Chain(ts) && |ts| >= 5
    ensures !Ast.Evaluable(LeftNested(ts))
  {
    ChainPrefix(ts, |ts| - 2);
    assert LeftNested(ts).left == LeftNested(ts[..|ts| - 2]);
    Ast.NestedLeftNotEvaluable(LeftNested(ts));
  }
}
