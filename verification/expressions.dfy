/**
 * Expressions of the grammar's operator layer: tokens, trees, the token
 * sequence a tree is written as, and the trees the precedence table allows.
 */
module Expressions {
  import opened Precedence

  /**
   * The tokens the operator layer sees. An operand stands for any primary
   * expression (a variable, a literal, a call); `Op` carries an operator's
   * spelling; `Qmark` and `SelBrace` are the selector's external tokens.
   */
  datatype Token =
    | Operand(text: string)
    | Op(op: Operator)
    | LParen
    | RParen
    | Qmark
    | SelBrace
    | RBrace
    | FatArrow
    | Comma

  /** Expression trees: the `unary`, `binary`, selector, `_relationship` and `_assignment` forms. */
  datatype Expr =
    | Atom(text: string)
    | Paren(inner: Expr)
    | Unary(op: Operator, arg: Expr)
    | Binary(left: Expr, op: Operator, right: Expr)
    | Selector(scrutinee: Expr, options: Options, trailingComma: bool)
    | Chain(left: Expr, op: Operator, right: Expr)
    | Assign(left: Expr, op: Operator, right: Expr)

  /** A selector's non-empty `key => value` list. */
  datatype Options =
    | Last(key: Expr, value: Expr)
    | More(key: Expr, value: Expr, rest: Options)

  function Size(e: Expr): nat {
    match e
    case Atom(_) => 1
    case Paren(i) => 1 + Size(i)
    case Unary(_, a) => 1 + Size(a)
    case Binary(l, _, r) => 1 + Size(l) + Size(r)
    case Selector(x, o, _) => 1 + Size(x) + OptionsSize(o)
    case Chain(l, _, r) => 1 + Size(l) + Size(r)
    case Assign(l, _, r) => 1 + Size(l) + Size(r)
  }

  function OptionsSize(o: Options): nat {
    match o
    case Last(k, v) => 1 + Size(k) + Size(v)
    case More(k, v, rest) => 1 + Size(k) + Size(v) + OptionsSize(rest)
  }

  /** The tokens a tree is written as. */
  function Tokens(e: Expr): seq<Token>
    decreases Size(e), 0
  {
    match e
    case Atom(x) => [Operand(x)]
    case Paren(i) => [LParen] + Tokens(i) + [RParen]
    case Unary(u, a) => [Op(u)] + Tokens(a)
    case Binary(l, b, r) => Tokens(l) + [Op(b)] + Tokens(r)
    case Selector(x, o, tc) => Tokens(x) + SelectorTokens(o, tc)
    case Chain(l, a, r) => Tokens(l) + [Op(a)] + Tokens(r)
    case Assign(l, a, r) => Tokens(l) + [Op(a)] + Tokens(r)
  }

  /** `? {` options, an optional trailing comma, `}`. */
  function SelectorTokens(o: Options, tc: bool): seq<Token>
    decreases OptionsSize(o), 2
  {
    [Qmark, SelBrace] + OptionsTokens(o) + TrailingComma(tc) + [RBrace]
  }

  function TrailingComma(tc: bool): seq<Token> {
    if tc then [Comma] else []
  }

  function OptionsTokens(o: Options): seq<Token>
    decreases OptionsSize(o), 1
  {
    match o
    case Last(k, v) => Tokens(k) + [FatArrow] + Tokens(v)
    case More(k, v, rest) => Tokens(k) + [FatArrow] + Tokens(v) + [Comma] + OptionsTokens(rest)
  }

  /** A tree that starts with a token of its own: an operand, a parenthesis or a prefix operator. */
  predicate IsPrefixForm(e: Expr) {
    e.Atom? || e.Paren? || e.Unary?
  }

  /** A tree at the `_expression` level: no chaining arrow or assignment at its root. */
  predicate IsExprLevel(e: Expr) {
    !e.Chain? && !e.Assign?
  }

  /**
   * Every operator on the left edge of `e` (its root, its left operand's
   * root, and so on down) binds at least as tightly as level `m`.
   */
  predicate LeftOk(e: Expr, m: nat) {
    match e
    case Binary(l, b, _) => BinaryLevel(b) >= m && LeftOk(l, m)
    case Selector(x, _, _) => QMARK >= m && LeftOk(x, m)
    case _ => true
  }

  /**
   * Every operator on the right edge of `e` binds at least as tightly as
   * level `m`. A selector ends in `}` and so closes its right edge.
   */
  predicate RightOk(e: Expr, m: nat) {
    match e
    case Binary(_, b, r) => BinaryLevel(b) >= m && RightOk(r, m)
    case Unary(u, a) => UnaryLevel(u) >= m && RightOk(a, m)
    case _ => true
  }

  /**
   * The trees the precedence table allows. A binary operator's left operand
   * exposes no looser operator on its right edge (left associativity lets an
   * equal one through) and its right operand exposes only strictly tighter
   * operators on its left edge; a selector's scrutinee exposes nothing looser
   * than `?`; a prefix operator applies to a prefix form; arrows chain
   * relationships to the left; an assignment's target is a relationship and
   * its value an assignment.
   */
  predicate WF(e: Expr) {
    match e
    case Atom(_) => true
    case Paren(i) => WF(i)
    case Unary(u, a) => IsUnaryOp(u) && IsPrefixForm(a) && WF(a)
    case Binary(l, b, r) =>
      && IsBinaryOp(b) && IsExprLevel(l) && IsExprLevel(r) && WF(l) && WF(r)
      && RightOk(l, BinaryLevel(b)) && LeftOk(r, BinaryLevel(b) + 1)
    case Selector(x, o, _) => IsExprLevel(x) && WF(x) && RightOk(x, QMARK) && OptionsWF(o)
    case Chain(l, a, r) => IsArrow(a) && !l.Assign? && IsExprLevel(r) && WF(l) && WF(r)
    case Assign(l, a, r) => IsAssignOp(a) && !l.Assign? && WF(l) && WF(r)
  }

  predicate OptionsWF(o: Options) {
    match o
    case Last(k, v) => IsExprLevel(k) && IsExprLevel(v) && WF(k) && WF(v)
    case More(k, v, rest) => IsExprLevel(k) && IsExprLevel(v) && WF(k) && WF(v) && OptionsWF(rest)
  }

  /**
   * The level of the operator a token sequence continues an expression
   * with: a binary operator's level, or QMARK for a selector.
   */
  function NextLevel(ts: seq<Token>): (p: nat)
    ensures p == 0 || OR <= p <= IN
  {
    if |ts| > 0 && ts[0].Op? && IsBinaryOp(ts[0].op) then BinaryLevel(ts[0].op)
    else if |ts| > 0 && ts[0] == Qmark then QMARK
    else 0
  }

  /**
   * `rest` may follow a tree parsed at minimum level `m`: it does not
   * continue with an operator of level `m` or tighter, and whatever operator
   * it continues with does not bind tighter than `e`'s right edge.
   */
  predicate Follows(e: Expr, rest: seq<Token>, m: nat) {
    NextLevel(rest) > 0 ==> NextLevel(rest) < m && RightOk(e, NextLevel(rest))
  }

  /** A step along the left spine: a binary operator with its right operand, a selector, or an arrow. */
  datatype Link =
    | Infix(op: Operator, right: Expr)
    | Select(options: Options, trailingComma: bool)
    | Arrow(arrow: Operator, right: Expr)

  function Apply(lhs: Expr, k: Link): Expr {
    match k
    case Infix(b, r) => Binary(lhs, b, r)
    case Select(o, tc) => Selector(lhs, o, tc)
    case Arrow(a, r) => Chain(lhs, a, r)
  }

  /** The tree built by applying the links to `lhs`, left to right. */
  function Fold(lhs: Expr, links: seq<Link>): Expr
    decreases |links|
  {
    if |links| == 0 then lhs else Fold(Apply(lhs, links[0]), links[1..])
  }

  function LinkTokens(k: Link): seq<Token> {
    match k
    case Infix(b, r) => [Op(b)] + Tokens(r)
    case Select(o, tc) => SelectorTokens(o, tc)
    case Arrow(a, r) => [Op(a)] + Tokens(r)
  }

  function LinksTokens(links: seq<Link>): seq<Token>
    decreases |links|
  {
    if |links| == 0 then [] else LinkTokens(links[0]) + LinksTokens(links[1..])
  }

  function LinkSize(k: Link): nat {
    match k
    case Infix(_, r) => Size(r)
    case Select(o, _) => OptionsSize(o)
    case Arrow(_, r) => Size(r)
  }

  /** `l`, the operator `x`, then `r` and `rest`, where `r` and `rest` are what follows `x` in `ts`, is `l` then `ts`. */
  lemma InfixJoin(l: seq<Token>, x: Token, r: seq<Token>, rest: seq<Token>, ts: seq<Token>)
    requires |ts| > 0 && ts[0] == x && r + rest == ts[1..]
    ensures l + [x] + r + rest == l + ts
  {
    assert ts == [x] + (r + rest);
  }

  /** A pair, then a comma and a selector body's remainder `r2`, regrouped. */
  lemma PairThenMore(k: seq<Token>, v: seq<Token>, r2: seq<Token>, more: seq<Token>, tc: seq<Token>, rest: seq<Token>)
    requires |r2| > 0 && r2[0] == Comma && more + tc + [RBrace] + rest == r2[1..]
    ensures k + [FatArrow] + v + [Comma] + more + tc + [RBrace] + rest == k + [FatArrow] + v + r2
  {
    assert r2 == [Comma] + (more + tc + [RBrace] + rest);
  }

  /** `l`, then a selector's tokens and `rest`, where the body, the closing tokens and `rest` follow `? {` in `ts`, is `l` then `ts`. */
  lemma SelectJoin(l: seq<Token>, body: seq<Token>, tc: seq<Token>, rest: seq<Token>, ts: seq<Token>)
    requires |ts| >= 2 && ts[0] == Qmark && ts[1] == SelBrace && body + tc + [RBrace] + rest == ts[2..]
    ensures l + ([Qmark, SelBrace] + body + tc + [RBrace]) + rest == l + ts
  {
    assert ts == [Qmark, SelBrace] + (body + tc + [RBrace] + rest);
  }

  /** A pair, then the closing tokens `tc` and `}` at the head of `r2`, regrouped. */
  lemma PairThenClose(k: seq<Token>, v: seq<Token>, tc: seq<Token>, r2: seq<Token>)
    requires |r2| > |tc| && r2[..|tc|] == tc && r2[|tc|] == RBrace
    ensures k + [FatArrow] + v + tc + [RBrace] + r2[|tc| + 1..] == k + [FatArrow] + v + r2
  {
    assert r2 == tc + [RBrace] + r2[|tc| + 1..];
  }
}
