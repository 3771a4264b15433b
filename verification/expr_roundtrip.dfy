/**
 * The parser is exact for the trees the precedence table allows: every
 * well-formed tree, written out and followed by tokens that cannot extend
 * it, parses back to itself. Hence a token sequence has at most one
 * well-formed tree, and the groupings the table promises follow.
 */
module ExprRoundTrip {
  import opened Wrappers
  import opened Precedence
  import opened Expressions
  import opened ExprParser

  /** Links that climbing produces: binary operators and selectors. */
  predicate ClimbLinks(links: seq<Link>) {
    forall i :: 0 <= i < |links| ==> links[i].Infix? || links[i].Select?
  }

  /** Links that the chaining loop produces. */
  predicate ArrowLinks(links: seq<Link>) {
    forall i :: 0 <= i < |links| ==> links[i].Arrow? && IsArrow(links[i].arrow)
  }

  /** Every link's operand is smaller than `bound`. */
  predicate LinksBelow(links: seq<Link>, bound: nat) {
    forall i :: 0 <= i < |links| ==> LinkSize(links[i]) < bound
  }

  lemma {:induction false} FoldAppend(lhs: Expr, links: seq<Link>, k: Link)
    ensures Fold(lhs, links + [k]) == Apply(Fold(lhs, links), k)
    decreases |links|
  {
    if |links| > 0 {
      assert (links + [k])[1..] == links[1..] + [k];
      FoldAppend(Apply(lhs, links[0]), links[1..], k);
    }
  }

  lemma {:induction false} LinksTokensAppend(links: seq<Link>, k: Link)
    ensures LinksTokens(links + [k]) == LinksTokens(links) + LinkTokens(k)
    decreases |links|
  {
    if |links| == 0 {
      assert links + [k] == [k];
    } else {
      assert (links + [k])[1..] == links[1..] + [k];
      LinksTokensAppend(links[1..], k);
    }
  }

  /** One more link at the top of a spine: the fold and its tokens grow by that link. */
  lemma SpineStep(leaf: Expr, links: seq<Link>, l: Expr, k: Link)
    requires Fold(leaf, links) == l && Tokens(leaf) + LinksTokens(links) == Tokens(l)
    ensures Fold(leaf, links + [k]) == Apply(l, k)
    ensures Tokens(leaf) + LinksTokens(links + [k]) == Tokens(Apply(l, k))
  {
    FoldAppend(leaf, links, k);
    LinksTokensAppend(links, k);
    ApplyTokens(l, k);
    TokenAssoc(Tokens(leaf), LinksTokens(links), LinkTokens(k));
  }

  /** One more link, smaller than the bound, keeps the link predicates. */
  lemma LinksGrow(links: seq<Link>, k: Link, b0: nat, bound: nat)
    requires LinksBelow(links, b0) && b0 <= bound && LinkSize(k) < bound
    ensures LinksBelow(links + [k], bound)
    ensures ClimbLinks(links) && (k.Infix? || k.Select?) ==> ClimbLinks(links + [k])
    ensures ArrowLinks(links) && k.Arrow? && IsArrow(k.arrow) ==> ArrowLinks(links + [k])
  {
  }

  /** Applying a link writes the link's tokens after the tree's. */
  lemma ApplyTokens(l: Expr, k: Link)
    ensures Tokens(Apply(l, k)) == Tokens(l) + LinkTokens(k)
  {
    match k
    case Infix(b, r) => TokenAssoc(Tokens(l), [Op(b)], Tokens(r));
    case Select(o, tc) =>
    case Arrow(a, r) => TokenAssoc(Tokens(l), [Op(a)], Tokens(r));
  }

  lemma TokenAssoc(a: seq<Token>, b: seq<Token>, c: seq<Token>)
    ensures a + (b + c) == a + b + c
  {
  }

  /**
   * The left spine of an expression-level tree: the prefix form at its
   * bottom-left and the binary operators and selectors applied to it, in
   * the order they are written.
   */
  function Unspine(e: Expr): (r: (Expr, seq<Link>))
    ensures Fold(r.0, r.1) == e
    ensures Tokens(r.0) + LinksTokens(r.1) == Tokens(e)
    ensures !r.0.Binary? && !r.0.Selector? && Size(r.0) <= Size(e)
    ensures IsExprLevel(e) && WF(e) ==> IsPrefixForm(r.0)
    ensures ClimbLinks(r.1) && LinksBelow(r.1, Size(e))
    decreases Size(e)
  {
    match e
    case Binary(l, b, rr) =>
      var (leaf, links) := Unspine(l);
      SpineStep(leaf, links, l, Infix(b, rr));
      LinksGrow(links, Infix(b, rr), Size(l), Size(e));
      (leaf, links + [Infix(b, rr)])
    case Selector(x, o, tc) =>
      var (leaf, links) := Unspine(x);
      SpineStep(leaf, links, x, Select(o, tc));
      LinksGrow(links, Select(o, tc), Size(x), Size(e));
      (leaf, links + [Select(o, tc)])
    case _ =>
      assert LinksTokens([]) == [];
      (e, [])
  }

  /**
   * The arrow spine of a relationship: the expression at its left end and
   * the arrows applied to it, in the order they are written.
   */
  function ChainUnspine(e: Expr): (r: (Expr, seq<Link>))
    ensures Fold(r.0, r.1) == e
    ensures Tokens(r.0) + LinksTokens(r.1) == Tokens(e)
    ensures !r.0.Chain? && Size(r.0) <= Size(e)
    ensures !e.Assign? && WF(e) ==> IsExprLevel(r.0)
    ensures WF(e) ==> ArrowLinks(r.1)
    ensures LinksBelow(r.1, Size(e))
    decreases Size(e)
  {
    match e
    case Chain(l, a, rr) =>
      var (leaf, links) := ChainUnspine(l);
      SpineStep(leaf, links, l, Arrow(a, rr));
      LinksGrow(links, Arrow(a, rr), Size(l), Size(e));
      (leaf, links + [Arrow(a, rr)])
    case _ =>
      assert LinksTokens([]) == [];
      (e, [])
  }

  /** The subtree a fold starts from is well formed when the fold is. */
  lemma {:induction false} FoldWF(y: Expr, links: seq<Link>)
    requires WF(Fold(y, links))
    ensures WF(y)
    decreases |links|
  {
    if |links| > 0 {
      FoldWF(Apply(y, links[0]), links[1..]);
    }
  }

  /** Climbing links keep the left edge: the fold's left edge includes the start's. */
  lemma {:induction false} FoldLeftOk(y: Expr, links: seq<Link>, m: nat)
    requires ClimbLinks(links) && LeftOk(Fold(y, links), m)
    ensures LeftOk(y, m)
    decreases |links|
  {
    if |links| > 0 {
      FoldLeftOk(Apply(y, links[0]), links[1..], m);
    }
  }

  /** Any tree's left edge satisfies level 0. */
  lemma {:induction false} LeftOkZero(e: Expr)
    ensures LeftOk(e, 0)
    decreases Size(e)
  {
    match e
    case Binary(l, _, _) => LeftOkZero(l);
    case Selector(x, _, _) => LeftOkZero(x);
    case _ =>
  }

  /** Every written tree starts with an operand, a parenthesis or an operator. */
  lemma {:induction false} TokensStart(e: Expr)
    ensures |Tokens(e)| > 0 && (Tokens(e)[0].Operand? || Tokens(e)[0].Op? || Tokens(e)[0] == LParen)
    decreases Size(e)
  {
    match e
    case Binary(l, _, _) => TokensStart(l);
    case Selector(x, _, _) => TokensStart(x);
    case Chain(l, _, _) => TokensStart(l);
    case Assign(l, _, _) => TokensStart(l);
    case _ =>
  }

  /** The level a climbing link continues with. */
  lemma LinkLevel(k: Link, t: seq<Token>)
    requires k.Infix? || k.Select?
    requires k.Infix? ==> IsBinaryOp(k.op)
    ensures NextLevel(LinkTokens(k) + t) == if k.Infix? then BinaryLevel(k.op) else QMARK
  {
  }

  /**
   * A prefix form, written out, is read back by the prefix parser whatever
   * follows it.
   */
  lemma {:induction false} PrefixRoundTrip(p: Expr, rest: seq<Token>)
    requires IsPrefixForm(p) && WF(p)
    ensures ParsePrefix(Tokens(p) + rest) == Some((p, rest))
    decreases Size(p), 1, 0, 0
  {
    match p
    case Atom(_) =>
    case Unary(u, a) =>
      assert Tokens(p) + rest == [Op(u)] + (Tokens(a) + rest);
      PrefixRoundTrip(a, rest);
    case Paren(i) =>
      assert Tokens(p) + rest == [LParen] + (Tokens(i) + ([RParen] + rest));
      AssignRoundTrip(i, [RParen] + rest);
  }

  /**
   * An expression-level tree, written out and followed by tokens that do
   * not continue it at level `m`, is read back by the expression parser.
   */
  lemma {:induction false} ExprRoundTrip(e: Expr, m: nat, rest: seq<Token>)
    requires IsExprLevel(e) && WF(e) && LeftOk(e, m) && Follows(e, rest, m)
    ensures ParseExpr(Tokens(e) + rest, m) == Some((e, rest))
    decreases Size(e), 3, 0, 0
  {
    var u := Unspine(e);
    var leaf, links := u.0, u.1;
    var t := LinksTokens(links) + rest;
    assert Tokens(e) + rest == Tokens(leaf) + t;
    FoldWF(leaf, links);
    PrefixRoundTrip(leaf, t);
    ClimbRoundTrip(leaf, links, m, rest, Size(e));
  }

  /** A binary operator whose right operand parses is folded in by one round of climbing. */
  lemma ClimbInfix(lhs: Expr, ts: seq<Token>, b: Operator, r: Expr, t: seq<Token>, m: nat)
    requires |ts| > 0 && ts[0] == Op(b) && IsBinaryOp(b) && BinaryLevel(b) >= m
    requires ParseExpr(ts[1..], BinaryLevel(b) + 1) == Some((r, t))
    ensures Climb(lhs, ts, m) == Climb(Binary(lhs, b, r), t, m)
  {
  }

  /** A selector whose body parses is folded in by one round of climbing. */
  lemma ClimbSelect(lhs: Expr, ts: seq<Token>, o: Options, tc: bool, t: seq<Token>, m: nat)
    requires |ts| > 1 && ts[0] == Qmark && ts[1] == SelBrace && QMARK >= m
    requires ParseOptions(ts[2..]) == Some((o, tc, t))
    ensures Climb(lhs, ts, m) == Climb(Selector(lhs, o, tc), t, m)
  {
  }

  /**
   * Whatever operator follows a climbing link does not bind tighter than
   * the right edge of the tree built so far.
   */
  lemma LinksReady(y: Expr, ls: seq<Link>, rest: seq<Token>, m: nat)
    requires ClimbLinks(ls) && WF(Fold(y, ls)) && Follows(Fold(y, ls), rest, m)
    ensures var q := NextLevel(LinksTokens(ls) + rest); q > 0 ==> RightOk(y, q)
  {
    if ls != [] {
      var z := Apply(y, ls[0]);
      FoldWF(z, ls[1..]);
      LinksTokensCons(ls, rest);
      LinkLevel(ls[0], LinksTokens(ls[1..]) + rest);
    } else {
      assert LinksTokens(ls) == [];
    }
  }

  /**
   * The climbing loop, started from the bottom-left of a tree with the
   * tree's links ahead, rebuilds the tree.
   */
  lemma {:induction false} ClimbRoundTrip(lhs: Expr, links: seq<Link>, m: nat, rest: seq<Token>, bound: nat)
    requires ClimbCase(lhs, links, m, rest, bound)
    ensures Climb(lhs, LinksTokens(links) + rest, m) == Some((Fold(lhs, links), rest))
    decreases bound, 2, |links|, 1
  {
    if |links| == 0 {
      assert LinksTokens(links) + rest == rest;
    } else if links[0].Infix? {
      ClimbInfixRoundTrip(lhs, links, m, rest, bound);
    } else {
      ClimbSelectRoundTrip(lhs, links, m, rest, bound);
    }
  }

  /** What climbing from `lhs` over `links` then `rest` at level `m` needs of them. */
  predicate ClimbCase(lhs: Expr, links: seq<Link>, m: nat, rest: seq<Token>, bound: nat) {
    && ClimbLinks(links) && LinksBelow(links, bound) && IsExprLevel(lhs)
    && WF(Fold(lhs, links)) && LeftOk(Fold(lhs, links), m) && Follows(Fold(lhs, links), rest, m)
  }

  /** Taking the first link off keeps what climbing needs, and the link's own operand qualifies too. */
  lemma ClimbCaseTail(lhs: Expr, links: seq<Link>, m: nat, rest: seq<Token>, bound: nat)
    requires ClimbCase(lhs, links, m, rest, bound) && |links| > 0
    ensures ClimbCase(Apply(lhs, links[0]), links[1..], m, rest, bound)
    ensures Fold(lhs, links) == Fold(Apply(lhs, links[0]), links[1..])
    ensures WF(Apply(lhs, links[0])) && LeftOk(Apply(lhs, links[0]), m)
    ensures LinkSize(links[0]) < bound
    ensures var q := NextLevel(LinksTokens(links[1..]) + rest); q > 0 ==> RightOk(Apply(lhs, links[0]), q)
  {
    var y := Apply(lhs, links[0]);
    var ls := links[1..];
    assert ClimbLinks(ls) && LinksBelow(ls, bound);
    FoldWF(y, ls);
    FoldLeftOk(y, ls, m);
    LinksReady(y, ls, rest, m);
  }

  /** The first link as tokens, followed by the rest. */
  lemma LinksTokensCons(links: seq<Link>, rest: seq<Token>)
    requires |links| > 0
    ensures LinksTokens(links) + rest == LinkTokens(links[0]) + (LinksTokens(links[1..]) + rest)
  {
  }

  /** A binary operator link, as tokens, puts the operator first and its operand after it. */
  lemma InfixTokens(links: seq<Link>, rest: seq<Token>)
    requires |links| > 0 && links[0].Infix?
    ensures var ts := LinksTokens(links) + rest;
      |ts| > 0 && ts[0] == Op(links[0].op) && ts[1..] == Tokens(links[0].right) + (LinksTokens(links[1..]) + rest)
  {
    LinksTokensCons(links, rest);
    HeadThen(Op(links[0].op), Tokens(links[0].right), LinksTokens(links[1..]) + rest);
  }

  /** A binary operator at the bottom of a well-formed tree binds at least as tightly as the left edge demands. */
  lemma InfixOperand(lhs: Expr, b: Operator, r: Expr, m: nat, q: nat)
    requires WF(Binary(lhs, b, r)) && LeftOk(Binary(lhs, b, r), m)
    requires q > 0 ==> RightOk(Binary(lhs, b, r), q)
    ensures IsBinaryOp(b) && BinaryLevel(b) >= m
    ensures IsExprLevel(r) && WF(r) && LeftOk(r, BinaryLevel(b) + 1)
    ensures q > 0 ==> q < BinaryLevel(b) + 1 && RightOk(r, q)
  {
  }

  /**
   * When the first link is a binary operator, its right operand qualifies
   * for parsing one level tighter, and the remaining links for climbing on.
   */
  lemma InfixTail(lhs: Expr, links: seq<Link>, m: nat, rest: seq<Token>, bound: nat)
    requires ClimbCase(lhs, links, m, rest, bound) && |links| > 0 && links[0].Infix?
    ensures var b, r, t := links[0].op, links[0].right, LinksTokens(links[1..]) + rest;
      && IsBinaryOp(b) && BinaryLevel(b) >= m && Size(r) < bound
      && IsExprLevel(r) && WF(r) && LeftOk(r, BinaryLevel(b) + 1) && Follows(r, t, BinaryLevel(b) + 1)
      && ClimbCase(Binary(lhs, b, r), links[1..], m, rest, bound)
      && Fold(lhs, links) == Fold(Binary(lhs, b, r), links[1..])
  {
    var b, r, t := links[0].op, links[0].right, LinksTokens(links[1..]) + rest;
    ClimbCaseTail(lhs, links, m, rest, bound);
    InfixOperand(lhs, b, r, m, NextLevel(t));
  }

  /**
   * When the first link is a selector, its body qualifies for parsing, and
   * the remaining links for climbing on.
   */
  lemma SelectTail(lhs: Expr, links: seq<Link>, m: nat, rest: seq<Token>, bound: nat)
    requires ClimbCase(lhs, links, m, rest, bound) && |links| > 0 && links[0].Select?
    ensures var o, tc, t := links[0].options, links[0].trailingComma, LinksTokens(links[1..]) + rest;
      && var ts := LinksTokens(links) + rest;
      && |ts| > 1 && ts[0] == Qmark && ts[1] == SelBrace
      && ts[2..] == OptionsTokens(o) + TrailingComma(tc) + [RBrace] + t
      && QMARK >= m && OptionsWF(o) && OptionsSize(o) < bound
      && ClimbCase(Selector(lhs, o, tc), links[1..], m, rest, bound)
      && Fold(lhs, links) == Fold(Selector(lhs, o, tc), links[1..])
  {
    var o, tc, t := links[0].options, links[0].trailingComma, LinksTokens(links[1..]) + rest;
    ClimbCaseTail(lhs, links, m, rest, bound);
    LinksTokensCons(links, rest);
    SelectShape(OptionsTokens(o), TrailingComma(tc), t);
  }

  /** A selector's tokens, then `t`: `?` and `{` first, the body and `}` after them. */
  lemma SelectShape(body: seq<Token>, tc: seq<Token>, t: seq<Token>)
    ensures var ts := [Qmark, SelBrace] + body + tc + [RBrace] + t;
      |ts| > 1 && ts[0] == Qmark && ts[1] == SelBrace && ts[2..] == body + tc + [RBrace] + t
  {
    var ts := [Qmark, SelBrace] + body + tc + [RBrace] + t;
    assert ts == [Qmark, SelBrace] + (body + tc + [RBrace] + t);
  }

  /** The first climbing link is a binary operator: its right operand parses back, then the rest. */
  lemma {:induction false} ClimbInfixRoundTrip(lhs: Expr, links: seq<Link>, m: nat, rest: seq<Token>, bound: nat)
    requires ClimbCase(lhs, links, m, rest, bound) && |links| > 0 && links[0].Infix?
    ensures Climb(lhs, LinksTokens(links) + rest, m) == Some((Fold(lhs, links), rest))
    decreases bound, 2, |links|, 0
  {
    var b, r, t := links[0].op, links[0].right, LinksTokens(links[1..]) + rest;
    InfixTail(lhs, links, m, rest, bound);
    InfixTokens(links, rest);
    ExprRoundTrip(r, BinaryLevel(b) + 1, t);
    ClimbInfix(lhs, LinksTokens(links) + rest, b, r, t, m);
    ClimbRoundTrip(Binary(lhs, b, r), links[1..], m, rest, bound);
  }

  /** The first climbing link is a selector: its body parses back, then the rest. */
  lemma {:induction false} ClimbSelectRoundTrip(lhs: Expr, links: seq<Link>, m: nat, rest: seq<Token>, bound: nat)
    requires ClimbCase(lhs, links, m, rest, bound) && |links| > 0 && links[0].Select?
    ensures Climb(lhs, LinksTokens(links) + rest, m) == Some((Fold(lhs, links), rest))
    decreases bound, 2, |links|, 0
  {
    var o, tc, t := links[0].options, links[0].trailingComma, LinksTokens(links[1..]) + rest;
    SelectTail(lhs, links, m, rest, bound);
    OptionsRoundTrip(o, tc, t);
    ClimbSelect(lhs, LinksTokens(links) + rest, o, tc, t, m);
    ClimbRoundTrip(Selector(lhs, o, tc), links[1..], m, rest, bound);
  }

  /**
   * One round of the options loop, in terms of what its two expression
   * parses answered: `r1` is what follows the key, `r2` what follows the value.
   */
  predicate PairAnswers(ts: seq<Token>, k: Expr, v: Expr, r1: seq<Token>, r2: seq<Token>) {
    && ParseExpr(ts, 0) == Some((k, r1))
    && |r1| > 0 && r1[0] == FatArrow
    && ParseExpr(r1[1..], 0) == Some((v, r2))
  }

  /** A last pair followed by `}` ends the body without a trailing comma. */
  lemma OptionsLast(ts: seq<Token>, k: Expr, v: Expr, r1: seq<Token>, r2: seq<Token>)
    requires PairAnswers(ts, k, v, r1, r2) && |r2| > 0 && r2[0] == RBrace
    ensures ParseOptions(ts) == Some((Last(k, v), false, r2[1..]))
  {
  }

  /** A last pair followed by `, }` ends the body with a trailing comma. */
  lemma OptionsLastComma(ts: seq<Token>, k: Expr, v: Expr, r1: seq<Token>, r2: seq<Token>)
    requires PairAnswers(ts, k, v, r1, r2) && |r2| > 1 && r2[0] == Comma && r2[1] == RBrace
    ensures ParseOptions(ts) == Some((Last(k, v), true, r2[2..]))
  {
  }

  /** A pair followed by a comma and more pairs continues the body. */
  lemma OptionsMore(ts: seq<Token>, k: Expr, v: Expr, r1: seq<Token>, r2: seq<Token>, more: Options, tc: bool, rest: seq<Token>)
    requires PairAnswers(ts, k, v, r1, r2) && |r2| > 1 && r2[0] == Comma && r2[1] != RBrace
    requires ParseOptions(r2[1..]) == Some((more, tc, rest))
    ensures ParseOptions(ts) == Some((More(k, v, more), tc, rest))
  {
  }

  /** What follows a selector body's first pair: a comma and more pairs, or the closing tokens. */
  function AfterPair(o: Options, tc: bool, rest: seq<Token>): seq<Token> {
    if o.Last? then TrailingComma(tc) + [RBrace] + rest
    else [Comma] + (OptionsTokens(o.rest) + TrailingComma(tc) + [RBrace] + rest)
  }

  /** A selector body, as tokens: its first pair, then what follows it. */
  lemma OptionsShape(o: Options, tc: bool, rest: seq<Token>)
    ensures OptionsTokens(o) + TrailingComma(tc) + [RBrace] + rest
      == Tokens(o.key) + ([FatArrow] + (Tokens(o.value) + AfterPair(o, tc, rest)))
  {
    if o.Last? {
      ShapeLast(Tokens(o.key), Tokens(o.value), TrailingComma(tc), rest);
    } else {
      ShapeMore(Tokens(o.key), Tokens(o.value), OptionsTokens(o.rest), TrailingComma(tc), rest);
    }
  }

  /** The tokens of a last pair and the closing tokens, regrouped after the key. */
  lemma ShapeLast(k: seq<Token>, v: seq<Token>, tc: seq<Token>, rest: seq<Token>)
    ensures k + [FatArrow] + v + tc + [RBrace] + rest == k + ([FatArrow] + (v + (tc + [RBrace] + rest)))
  {
  }

  /** The tokens of a pair, a comma, more pairs and the closing tokens, regrouped after the key. */
  lemma ShapeMore(k: seq<Token>, v: seq<Token>, more: seq<Token>, tc: seq<Token>, rest: seq<Token>)
    ensures k + [FatArrow] + v + [Comma] + more + tc + [RBrace] + rest
      == k + ([FatArrow] + (v + ([Comma] + (more + tc + [RBrace] + rest))))
  {
  }

  /** A token in front of two sequences: the token comes first and the two sequences after it. */
  lemma HeadThen(x: Token, a: seq<Token>, b: seq<Token>)
    ensures var t := [x] + a + b; |t| > 0 && t[0] == x && t[1..] == a + b
  {
  }

  /** What follows a selector body's first pair, case by case. */
  lemma AfterPairShape(o: Options, tc: bool, rest: seq<Token>)
    requires OptionsWF(o)
    ensures var r2 := AfterPair(o, tc, rest);
      && (o.Last? && !tc ==> |r2| > 0 && r2[0] == RBrace && r2[1..] == rest)
      && (o.Last? && tc ==> |r2| > 1 && r2[0] == Comma && r2[1] == RBrace && r2[2..] == rest)
      && (o.More? ==> && |r2| > 1 && r2[0] == Comma && r2[1] != RBrace
                      && r2[1..] == OptionsTokens(o.rest) + TrailingComma(tc) + [RBrace] + rest)
  {
    var r2 := AfterPair(o, tc, rest);
    if o.More? {
      TokensStart(o.rest.key);
      assert r2[1..] == OptionsTokens(o.rest) + TrailingComma(tc) + [RBrace] + rest;
    } else if tc {
      assert r2 == [Comma, RBrace] + rest;
    } else {
      assert r2 == [RBrace] + rest;
    }
  }

  /** A selector body, written out, is read back with its trailing comma. */
  lemma {:induction false} OptionsRoundTrip(o: Options, tc: bool, rest: seq<Token>)
    requires OptionsWF(o)
    ensures ParseOptions(OptionsTokens(o) + TrailingComma(tc) + [RBrace] + rest) == Some((o, tc, rest))
    decreases OptionsSize(o), 0, 0, 1
  {
    var r2 := AfterPair(o, tc, rest);
    var r1 := [FatArrow] + (Tokens(o.value) + r2);
    var ts := Tokens(o.key) + r1;
    OptionsShape(o, tc, rest);
    AfterPairShape(o, tc, rest);
    PairRoundTrip(o.key, o.value, r2, OptionsSize(o));
    if o.More? {
      OptionsRoundTrip(o.rest, tc, rest);
      OptionsMore(ts, o.key, o.value, r1, r2, o.rest, tc, rest);
    } else if tc {
      OptionsLastComma(ts, o.key, o.value, r1, r2);
    } else {
      OptionsLast(ts, o.key, o.value, r1, r2);
    }
  }

  /** Both halves of a pair parse back, the value followed by a comma or `}`. */
  lemma {:induction false} PairRoundTrip(k: Expr, v: Expr, r2: seq<Token>, bound: nat)
    requires IsExprLevel(k) && IsExprLevel(v) && WF(k) && WF(v)
    requires Size(k) < bound && Size(v) < bound
    requires |r2| > 0 && (r2[0] == Comma || r2[0] == RBrace)
    ensures PairAnswers(Tokens(k) + ([FatArrow] + (Tokens(v) + r2)), k, v, [FatArrow] + (Tokens(v) + r2), r2)
    decreases bound, 0, 0, 0
  {
    var r1 := [FatArrow] + (Tokens(v) + r2);
    LeftOkZero(k);
    LeftOkZero(v);
    ExprRoundTrip(k, 0, r1);
    assert r1[1..] == Tokens(v) + r2;
    ExprRoundTrip(v, 0, r2);
  }

  /** `rest` cannot continue a relationship: no binary operator, `?` or arrow comes next. */
  predicate RelationshipEnds(rest: seq<Token>) {
    NextLevel(rest) == 0 && !(|rest| > 0 && rest[0].Op? && IsArrow(rest[0].op))
  }

  /** `rest` cannot continue an assignment either: no assignment operator comes next. */
  predicate AssignmentEnds(rest: seq<Token>) {
    RelationshipEnds(rest) && !(|rest| > 0 && rest[0].Op? && IsAssignOp(rest[0].op))
  }

  /** Arrow links, or the end of a relationship, never continue an expression. */
  lemma ArrowsEndExpr(links: seq<Link>, rest: seq<Token>)
    requires ArrowLinks(links) && RelationshipEnds(rest)
    ensures NextLevel(LinksTokens(links) + rest) == 0
  {
    if links != [] {
      var head := LinkTokens(links[0]);
      assert head == [Op(links[0].arrow)] + Tokens(links[0].right);
      assert LinksTokens(links) == head + LinksTokens(links[1..]);
      assert (LinksTokens(links) + rest)[0] == head[0] == Op(links[0].arrow);
      assert !IsBinaryOp(links[0].arrow);
    } else {
      assert LinksTokens(links) + rest == rest;
    }
  }

  /** A relationship, written out, is read back with its arrows grouped to the left. */
  lemma {:induction false} RelationshipRoundTrip(e: Expr, rest: seq<Token>)
    requires !e.Assign? && WF(e) && RelationshipEnds(rest)
    ensures ParseRelationship(Tokens(e) + rest) == Some((e, rest))
    decreases Size(e), 5, 0, 0
  {
    var u := ChainUnspine(e);
    var leaf, links := u.0, u.1;
    var t := LinksTokens(links) + rest;
    assert Tokens(e) + rest == Tokens(leaf) + t;
    FoldWF(leaf, links);
    LeftOkZero(leaf);
    ArrowsEndExpr(links, rest);
    ExprRoundTrip(leaf, 0, t);
    ChainRoundTrip(leaf, links, rest, Size(e));
  }

  /** An arrow whose right side parses is chained on by one round of the loop. */
  lemma ChainArrow(lhs: Expr, ts: seq<Token>, a: Operator, r: Expr, t: seq<Token>)
    requires |ts| > 0 && ts[0] == Op(a) && IsArrow(a)
    requires ParseExpr(ts[1..], 0) == Some((r, t))
    ensures ChainLoop(lhs, ts) == ChainLoop(Chain(lhs, a, r), t)
  {
  }

  /** What chaining from `lhs` over `links` then `rest` needs of them. */
  predicate ChainCase(lhs: Expr, links: seq<Link>, rest: seq<Token>, bound: nat) {
    && ArrowLinks(links) && LinksBelow(links, bound) && !lhs.Assign?
    && WF(Fold(lhs, links)) && RelationshipEnds(rest)
  }

  /** An arrow link, as tokens, puts the arrow first and its right side after it. */
  lemma ArrowTokens(links: seq<Link>, rest: seq<Token>)
    requires |links| > 0 && links[0].Arrow?
    ensures var ts := LinksTokens(links) + rest;
      |ts| > 0 && ts[0] == Op(links[0].arrow) && ts[1..] == Tokens(links[0].right) + (LinksTokens(links[1..]) + rest)
  {
    LinksTokensCons(links, rest);
    HeadThen(Op(links[0].arrow), Tokens(links[0].right), LinksTokens(links[1..]) + rest);
  }

  /**
   * Taking the first arrow off: its right side qualifies for parsing as a
   * whole expression, and the remaining arrows for chaining on.
   */
  lemma ChainTail(lhs: Expr, links: seq<Link>, rest: seq<Token>, bound: nat)
    requires ChainCase(lhs, links, rest, bound) && |links| > 0
    ensures var a, r, t := links[0].arrow, links[0].right, LinksTokens(links[1..]) + rest;
      && IsArrow(a) && IsExprLevel(r) && WF(r) && LeftOk(r, 0) && Follows(r, t, 0) && Size(r) < bound
      && ChainCase(Chain(lhs, a, r), links[1..], rest, bound)
      && Fold(lhs, links) == Fold(Chain(lhs, a, r), links[1..])
  {
    var a, r := links[0].arrow, links[0].right;
    var y := Chain(lhs, a, r);
    var ls := links[1..];
    assert ArrowLinks(ls) && LinksBelow(ls, bound);
    assert Fold(lhs, links) == Fold(y, ls);
    FoldWF(y, ls);
    LeftOkZero(r);
    ArrowsEndExpr(ls, rest);
  }

  /** The chaining loop, started from the left end with the arrows ahead, rebuilds the relationship. */
  lemma {:induction false} ChainRoundTrip(lhs: Expr, links: seq<Link>, rest: seq<Token>, bound: nat)
    requires ChainCase(lhs, links, rest, bound)
    ensures ChainLoop(lhs, LinksTokens(links) + rest) == Some((Fold(lhs, links), rest))
    decreases bound, 4, |links|, 0
  {
    if |links| == 0 {
      assert LinksTokens(links) + rest == rest;
    } else {
      var a, r, t := links[0].arrow, links[0].right, LinksTokens(links[1..]) + rest;
      ChainTail(lhs, links, rest, bound);
      ArrowTokens(links, rest);
      ExprRoundTrip(r, 0, t);
      ChainArrow(lhs, LinksTokens(links) + rest, a, r, t);
      ChainRoundTrip(Chain(lhs, a, r), links[1..], rest, bound);
    }
  }

  /**
   * A well-formed tree, written out and followed by tokens that cannot
   * continue it, is read back by the assignment parser.
   */
  lemma {:induction false} AssignRoundTrip(e: Expr, rest: seq<Token>)
    requires WF(e) && AssignmentEnds(rest)
    ensures ParseAssignment(Tokens(e) + rest) == Some((e, rest))
    decreases Size(e), 6, 0, 0
  {
    if e.Assign? {
      var t := [Op(e.op)] + (Tokens(e.right) + rest);
      assert Tokens(e) + rest == Tokens(e.left) + t;
      RelationshipRoundTrip(e.left, t);
      AssignRoundTrip(e.right, rest);
    } else {
      RelationshipRoundTrip(e, rest);
    }
  }

  /** Every well-formed tree is what its own tokens parse to. */
  lemma ParseRoundTrip(e: Expr)
    requires WF(e)
    ensures Parse(Tokens(e)) == Some(e)
  {
    AssignRoundTrip(e, []);
    assert Tokens(e) + [] == Tokens(e);
  }

  /** A token sequence has at most one well-formed tree: the table leaves no grouping ambiguous. */
  lemma Unambiguous(e1: Expr, e2: Expr)
    requires WF(e1) && WF(e2) && Tokens(e1) == Tokens(e2)
    ensures e1 == e2
  {
    ParseRoundTrip(e1);
    ParseRoundTrip(e2);
  }
}
