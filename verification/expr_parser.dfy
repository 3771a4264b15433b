/**
 * A precedence-climbing parser for the operator layer. Binary operators
 * and the selector's `?` are climbed by level; prefix operators apply to a
 * prefix form; arrows chain relationships to the left; assignment is
 * right-associative above relationships. Every result is a well-formed tree
 * that prints back to exactly the tokens consumed.
 */
module ExprParser {
  import opened Wrappers
  import opened Precedence
  import opened Expressions

  /**
   * A prefix form: an operand, a parenthesised assignment, or a prefix
   * operator applied to a prefix form.
   */
  function ParsePrefix(ts: seq<Token>): (r: Option<(Expr, seq<Token>)>)
    ensures r.Some? ==> var (e, rest) := r.value;
      && Tokens(e) + rest == ts && |rest| < |ts|
      && IsPrefixForm(e) && WF(e)
    decreases |ts|, 1
  {
    if |ts| == 0 then None
    else match ts[0]
      case Operand(x) => Some((Atom(x), ts[1..]))
      case Op(u) =>
        if !IsUnaryOp(u) then None
        else (match ParsePrefix(ts[1..])
          case None => None
          case Some((a, rest)) => Some((Unary(u, a), rest)))
      case LParen =>
        (match ParseAssignment(ts[1..])
        case None => None
        case Some((i, rest)) =>
          if |rest| > 0 && rest[0] == RParen then
            assert Tokens(Paren(i)) + rest[1..] == [Token.LParen] + (Tokens(i) + rest);
            Some((Paren(i), rest[1..]))
          else None)
      case _ => None
  }

  /**
   * An expression whose left edge binds at least as tightly as level `m`:
   * a prefix form, then climbing.
   */
  function ParseExpr(ts: seq<Token>, m: nat): (r: Option<(Expr, seq<Token>)>)
    ensures r.Some? ==> |r.value.1| < |ts| && ExprSound(ts, m, r.value.0, r.value.1)
    decreases |ts|, 3
  {
    match ParsePrefix(ts)
    case None => None
    case Some((p, rest)) =>
      PrefixRightOk(p, NextLevel(rest));
      Climb(p, rest, m)
  }

  /** What parsing an expression at level `m` promises of its answer `(e, rest)`. */
  predicate ExprSound(ts: seq<Token>, m: nat, e: Expr, rest: seq<Token>) {
    Tokens(e) + rest == ts && IsExprLevel(e) && WF(e) && LeftOk(e, m) && Follows(e, rest, m)
  }

  /** A prefix form exposes only prefix operators on its right edge, and those bind tighter than any binary level. */
  lemma PrefixRightOk(e: Expr, q: nat)
    requires IsPrefixForm(e) && WF(e) && q <= IN
    ensures RightOk(e, q)
    decreases Size(e)
  {
    if e.Unary? {
      PrefixRightOk(e.arg, q);
    }
  }

  /** `lhs` may be climbed from with `ts` ahead: the next operator does not bind tighter than its right edge. */
  predicate ClimbReady(lhs: Expr, ts: seq<Token>) {
    IsExprLevel(lhs) && WF(lhs) && (NextLevel(ts) > 0 ==> RightOk(lhs, NextLevel(ts)))
  }

  /** What climbing from `lhs` over `ts` at level `m` promises of its answer `(e, rest)`. */
  predicate ClimbSound(lhs: Expr, ts: seq<Token>, m: nat, e: Expr, rest: seq<Token>) {
    && Tokens(e) + rest == Tokens(lhs) + ts
    && IsExprLevel(e) && WF(e) && (LeftOk(lhs, m) ==> LeftOk(e, m)) && Follows(e, rest, m)
  }

  /**
   * The climbing loop: while the input continues with a binary operator of
   * level `m` or tighter, parse its right operand one level tighter and fold
   * it in; a `?` of level `m` or tighter takes a selector body instead.
   */
  function Climb(lhs: Expr, ts: seq<Token>, m: nat): (r: Option<(Expr, seq<Token>)>)
    ensures r.Some? ==> |r.value.1| <= |ts|
    ensures r.Some? && ClimbReady(lhs, ts) ==> ClimbSound(lhs, ts, m, r.value.0, r.value.1)
    decreases |ts|, 2
  {
    var p := NextLevel(ts);
    if p == 0 || p < m then Some((lhs, ts))
    else if ts[0] == Qmark then
      if |ts| < 2 || ts[1] != SelBrace then None
      else match ParseOptions(ts[2..])
        case None => None
        case Some((o, tc, rest)) =>
          var r := Climb(Selector(lhs, o, tc), rest, m);
          if r.None? then None
          else
            SelectorStep(lhs, ts, m, o, tc, rest, r.value.0, r.value.1);
            r
    else
      match ParseExpr(ts[1..], p + 1)
      case None => None
      case Some((rhs, rest)) =>
        var r := Climb(Binary(lhs, ts[0].op, rhs), rest, m);
        if r.None? then None
        else
          BinaryStep(lhs, ts, m, rhs, rest, r.value.0, r.value.1);
          r
  }

  /** Folding a selector into `lhs` keeps climbing sound. */
  lemma SelectorStep(lhs: Expr, ts: seq<Token>, m: nat, o: Options, tc: bool, rest: seq<Token>, e: Expr, rest2: seq<Token>)
    requires |ts| >= 2 && ts[0] == Qmark && ts[1] == SelBrace && QMARK >= m
    requires OptionsTokens(o) + TrailingComma(tc) + [RBrace] + rest == ts[2..] && OptionsWF(o)
    requires ClimbReady(Selector(lhs, o, tc), rest) ==> ClimbSound(Selector(lhs, o, tc), rest, m, e, rest2)
    ensures ClimbReady(lhs, ts) ==> ClimbSound(lhs, ts, m, e, rest2)
  {
    if ClimbReady(lhs, ts) {
      var x := Selector(lhs, o, tc);
      assert NextLevel(ts) == QMARK;
      assert ClimbReady(x, rest);
      assert Tokens(x) == Tokens(lhs) + SelectorTokens(o, tc);
      assert SelectorTokens(o, tc) == [Qmark, SelBrace] + OptionsTokens(o) + TrailingComma(tc) + [RBrace];
      SelectJoin(Tokens(lhs), OptionsTokens(o), TrailingComma(tc), rest, ts);
    }
  }

  /** Folding a binary operator and its right operand into `lhs` keeps climbing sound. */
  lemma BinaryStep(lhs: Expr, ts: seq<Token>, m: nat, rhs: Expr, rest: seq<Token>, e: Expr, rest2: seq<Token>)
    requires |ts| > 0 && ts[0].Op? && IsBinaryOp(ts[0].op) && BinaryLevel(ts[0].op) >= m
    requires Tokens(rhs) + rest == ts[1..] && IsExprLevel(rhs) && WF(rhs)
    requires LeftOk(rhs, BinaryLevel(ts[0].op) + 1) && Follows(rhs, rest, BinaryLevel(ts[0].op) + 1)
    requires ClimbReady(Binary(lhs, ts[0].op, rhs), rest) ==> ClimbSound(Binary(lhs, ts[0].op, rhs), rest, m, e, rest2)
    ensures ClimbReady(lhs, ts) ==> ClimbSound(lhs, ts, m, e, rest2)
  {
    if ClimbReady(lhs, ts) {
      var b := ts[0].op;
      assert NextLevel(ts) == BinaryLevel(b);
      BinaryReady(lhs, b, rhs, rest);
      InfixJoin(Tokens(lhs), ts[0], Tokens(rhs), rest, ts);
    }
  }

  /** After a binary operator and its right operand, the folded tree may be climbed from. */
  lemma BinaryReady(lhs: Expr, b: Operator, rhs: Expr, rest: seq<Token>)
    requires IsBinaryOp(b) && IsExprLevel(lhs) && WF(lhs) && RightOk(lhs, BinaryLevel(b))
    requires IsExprLevel(rhs) && WF(rhs) && LeftOk(rhs, BinaryLevel(b) + 1) && Follows(rhs, rest, BinaryLevel(b) + 1)
    ensures ClimbReady(Binary(lhs, b, rhs), rest)
  {
  }

  /** What parsing a selector body promises of its answer `(o, tc, rest)`. */
  predicate OptionsSound(ts: seq<Token>, o: Options, tc: bool, rest: seq<Token>) {
    OptionsTokens(o) + TrailingComma(tc) + [RBrace] + rest == ts && OptionsWF(o)
  }

  /**
   * A selector body after `? {`: `key => value` pairs separated by commas,
   * an optional trailing comma, then `}`.
   */
  function ParseOptions(ts: seq<Token>): (r: Option<(Options, bool, seq<Token>)>)
    ensures r.Some? ==> |r.value.2| < |ts| && OptionsSound(ts, r.value.0, r.value.1, r.value.2)
    decreases |ts|, 4
  {
    match ParseExpr(ts, 0)
    case None => None
    case Some((k, r1)) =>
      if |r1| == 0 || r1[0] != FatArrow then None
      else match ParseExpr(r1[1..], 0)
        case None => None
        case Some((v, r2)) =>
          OptionPair(ts, k, r1, v, r2);
          if |r2| > 0 && r2[0] == RBrace then
            assert OptionsSound(ts, Last(k, v), false, r2[1..]) by {
              PairThenClose(Tokens(k), Tokens(v), [], r2);
            }
            Some((Last(k, v), false, r2[1..]))
          else if |r2| > 1 && r2[0] == Comma && r2[1] == RBrace then
            assert OptionsSound(ts, Last(k, v), true, r2[2..]) by {
              assert r2[..1] == [Comma];
              PairThenClose(Tokens(k), Tokens(v), [Comma], r2);
            }
            Some((Last(k, v), true, r2[2..]))
          else if |r2| > 0 && r2[0] == Comma then
            match ParseOptions(r2[1..])
            case None => None
            case Some((more, tc, rest)) =>
              MoreOptions(ts, k, v, r2, more, tc, rest);
              Some((More(k, v, more), tc, rest))
          else None
  }

  /** A pair, a comma and a parsed remainder make a longer selector body. */
  lemma MoreOptions(ts: seq<Token>, k: Expr, v: Expr, r2: seq<Token>, more: Options, tc: bool, rest: seq<Token>)
    requires ts == Tokens(k) + [FatArrow] + Tokens(v) + r2
    requires IsExprLevel(k) && IsExprLevel(v) && WF(k) && WF(v)
    requires |r2| > 0 && r2[0] == Comma && OptionsSound(r2[1..], more, tc, rest)
    ensures OptionsSound(ts, More(k, v, more), tc, rest)
  {
    PairThenMore(Tokens(k), Tokens(v), r2, OptionsTokens(more), TrailingComma(tc), rest);
  }

  /** A parsed `key => value` pair. */
  lemma OptionPair(ts: seq<Token>, k: Expr, r1: seq<Token>, v: Expr, r2: seq<Token>)
    requires ExprSound(ts, 0, k, r1) && |r1| > 0 && r1[0] == FatArrow && ExprSound(r1[1..], 0, v, r2)
    ensures ts == Tokens(k) + [FatArrow] + Tokens(v) + r2
    ensures IsExprLevel(k) && IsExprLevel(v) && WF(k) && WF(v)
  {
    assert r1 == [FatArrow] + r1[1..];
  }

  /** A relationship: expressions joined by chaining arrows, grouped to the left. */
  function ParseRelationship(ts: seq<Token>): (r: Option<(Expr, seq<Token>)>)
    ensures r.Some? ==> var (e, rest) := r.value;
      && Tokens(e) + rest == ts && |rest| < |ts|
      && !e.Assign? && WF(e) && NextLevel(rest) == 0
    decreases |ts|, 5
  {
    match ParseExpr(ts, 0)
    case None => None
    case Some((x, rest)) => ChainLoop(x, rest)
  }

  /** `lhs` may be chained from with `ts` ahead. */
  predicate ChainReady(lhs: Expr, ts: seq<Token>) {
    !lhs.Assign? && WF(lhs) && NextLevel(ts) == 0
  }

  /** What chaining from `lhs` over `ts` promises of its answer `(e, rest)`. */
  predicate ChainSound(lhs: Expr, ts: seq<Token>, e: Expr, rest: seq<Token>) {
    Tokens(e) + rest == Tokens(lhs) + ts && !e.Assign? && WF(e) && NextLevel(rest) == 0
  }

  /** The chaining loop: each arrow takes a whole expression as its right side. */
  function ChainLoop(lhs: Expr, ts: seq<Token>): (r: Option<(Expr, seq<Token>)>)
    ensures r.Some? ==> |r.value.1| <= |ts|
    ensures r.Some? && ChainReady(lhs, ts) ==> ChainSound(lhs, ts, r.value.0, r.value.1)
    decreases |ts|, 4
  {
    if |ts| > 0 && ts[0].Op? && IsArrow(ts[0].op) then
      match ParseExpr(ts[1..], 0)
      case None => None
      case Some((rhs, rest)) =>
        var r := ChainLoop(Chain(lhs, ts[0].op, rhs), rest);
        if r.None? then None
        else
          ChainStep(lhs, ts, rhs, rest, r.value.0, r.value.1);
          r
    else Some((lhs, ts))
  }

  /** Chaining one more expression onto `lhs` keeps the loop sound. */
  lemma ChainStep(lhs: Expr, ts: seq<Token>, rhs: Expr, rest: seq<Token>, e: Expr, rest2: seq<Token>)
    requires |ts| > 0 && ts[0].Op? && IsArrow(ts[0].op) && ExprSound(ts[1..], 0, rhs, rest)
    requires ChainReady(Chain(lhs, ts[0].op, rhs), rest) ==> ChainSound(Chain(lhs, ts[0].op, rhs), rest, e, rest2)
    ensures ChainReady(lhs, ts) ==> ChainSound(lhs, ts, e, rest2)
  {
    if ChainReady(lhs, ts) {
      var x := Chain(lhs, ts[0].op, rhs);
      assert ChainReady(x, rest);
      InfixJoin(Tokens(lhs), ts[0], Tokens(rhs), rest, ts);
    }
  }

  /** An assignment: a relationship, optionally followed by `=`, `+=` or `-=` and an assignment. */
  function ParseAssignment(ts: seq<Token>): (r: Option<(Expr, seq<Token>)>)
    ensures r.Some? ==> var (e, rest) := r.value;
      && Tokens(e) + rest == ts && |rest| < |ts|
      && WF(e) && NextLevel(rest) == 0
    decreases |ts|, 6
  {
    match ParseRelationship(ts)
    case None => None
    case Some((t, rest)) =>
      if |rest| > 0 && rest[0].Op? && IsAssignOp(rest[0].op) then
        match ParseAssignment(rest[1..])
        case None => None
        case Some((v, rest2)) =>
          InfixJoin(Tokens(t), rest[0], Tokens(v), rest2, rest);
          Some((Assign(t, rest[0].op, v), rest2))
      else Some((t, rest))
  }

  /** A whole token sequence as one assignment-level expression. */
  function Parse(ts: seq<Token>): (r: Option<Expr>)
    ensures r.Some? ==> Tokens(r.value) == ts && WF(r.value)
  {
    match ParseAssignment(ts)
    case Some((e, rest)) => if rest == [] then Some(e) else None
    case None => None
  }
}
