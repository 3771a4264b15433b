/**
 * The groupings the precedence table promises, for any operands and any
 * operators of the given classes. Each follows from the round trip: the
 * expected tree is well formed and is written as the given tokens, so it
 * is the only tree they parse to.
 */
module ExprExamples {
  import opened Wrappers
  import opened Precedence
  import opened Expressions
  import opened ExprParser
  import opened ExprRoundTrip

  /**
   * `x b1 y b2 z` with `b2` binding strictly tighter groups as
   * `x b1 (y b2 z)` (so `1 + 2 * 3` is `1 + (2 * 3)`); the other grouping
   * is no tree the table allows.
   */
  lemma TighterOperatorGroupsFirst(x: string, b1: Operator, y: string, b2: Operator, z: string)
    requires IsBinaryOp(b1) && IsBinaryOp(b2) && BinaryLevel(b1) < BinaryLevel(b2)
    ensures Parse([Operand(x), Op(b1), Operand(y), Op(b2), Operand(z)])
      == Some(Binary(Atom(x), b1, Binary(Atom(y), b2, Atom(z))))
    ensures !WF(Binary(Binary(Atom(x), b1, Atom(y)), b2, Atom(z)))
  {
    var r := Binary(Atom(y), b2, Atom(z));
    var e := Binary(Atom(x), b1, r);
    assert Tokens(r) == [Operand(y), Op(b2), Operand(z)];
    assert Tokens(e) == [Operand(x), Op(b1)] + Tokens(r);
    assert Tokens(e) == [Operand(x), Op(b1), Operand(y), Op(b2), Operand(z)];
    ParseRoundTrip(e);
  }

  /**
   * `x b1 y b2 z` with `b1` binding at least as tightly groups as
   * `(x b1 y) b2 z`: operators of one level associate to the left (so
   * `a - b - c` is `(a - b) - c`); the other grouping is no tree the table
   * allows.
   */
  lemma LeftAssociative(x: string, b1: Operator, y: string, b2: Operator, z: string)
    requires IsBinaryOp(b1) && IsBinaryOp(b2) && BinaryLevel(b1) >= BinaryLevel(b2)
    ensures Parse([Operand(x), Op(b1), Operand(y), Op(b2), Operand(z)])
      == Some(Binary(Binary(Atom(x), b1, Atom(y)), b2, Atom(z)))
    ensures !WF(Binary(Atom(x), b1, Binary(Atom(y), b2, Atom(z))))
  {
    var l := Binary(Atom(x), b1, Atom(y));
    var e := Binary(l, b2, Atom(z));
    assert Tokens(l) == [Operand(x), Op(b1), Operand(y)];
    assert Tokens(e) == Tokens(l) + [Op(b2), Operand(z)];
    assert Tokens(e) == [Operand(x), Op(b1), Operand(y), Op(b2), Operand(z)];
    ParseRoundTrip(e);
  }

  /** A prefix operator applies before any binary operator: `-1 + 2` is `(-1) + 2`, `!$a and $b` is `(!$a) and $b`. */
  lemma PrefixBindsFirst(u: Operator, x: string, b: Operator, y: string)
    requires IsUnaryOp(u) && IsBinaryOp(b)
    ensures Parse([Op(u), Operand(x), Op(b), Operand(y)])
      == Some(Binary(Unary(u, Atom(x)), b, Atom(y)))
  {
    var l := Unary(u, Atom(x));
    var e := Binary(l, b, Atom(y));
    assert Tokens(l) == [Op(u), Operand(x)];
    assert Tokens(e) == Tokens(l) + [Op(b), Operand(y)];
    assert Tokens(e) == [Op(u), Operand(x), Op(b), Operand(y)];
    ParseRoundTrip(e);
  }

  /** Arrows chain to the left: `A -> B ~> C` is `(A -> B) ~> C`. */
  lemma ArrowsChainLeft(x: string, a1: Operator, y: string, a2: Operator, z: string)
    requires IsArrow(a1) && IsArrow(a2)
    ensures Parse([Operand(x), Op(a1), Operand(y), Op(a2), Operand(z)])
      == Some(Chain(Chain(Atom(x), a1, Atom(y)), a2, Atom(z)))
  {
    var l := Chain(Atom(x), a1, Atom(y));
    var e := Chain(l, a2, Atom(z));
    assert Tokens(l) == [Operand(x), Op(a1), Operand(y)];
    assert Tokens(e) == Tokens(l) + [Op(a2), Operand(z)];
    assert Tokens(e) == [Operand(x), Op(a1), Operand(y), Op(a2), Operand(z)];
    ParseRoundTrip(e);
  }

  /** An arrow's right side is a whole expression: `A -> B + C` is `A -> (B + C)`. */
  lemma ArrowTakesExpression(x: string, a: Operator, y: string, b: Operator, z: string)
    requires IsArrow(a) && IsBinaryOp(b)
    ensures Parse([Operand(x), Op(a), Operand(y), Op(b), Operand(z)])
      == Some(Chain(Atom(x), a, Binary(Atom(y), b, Atom(z))))
  {
    var r := Binary(Atom(y), b, Atom(z));
    var e := Chain(Atom(x), a, r);
    assert Tokens(r) == [Operand(y), Op(b), Operand(z)];
    assert Tokens(e) == [Operand(x), Op(a)] + Tokens(r);
    assert Tokens(e) == [Operand(x), Op(a), Operand(y), Op(b), Operand(z)];
    ParseRoundTrip(e);
  }

  /** Assignments associate to the right: `$x = $y = 1` is `$x = ($y = 1)`. */
  lemma AssignmentAssociatesRight(x: string, o1: Operator, y: string, o2: Operator, z: string)
    requires IsAssignOp(o1) && IsAssignOp(o2)
    ensures Parse([Operand(x), Op(o1), Operand(y), Op(o2), Operand(z)])
      == Some(Assign(Atom(x), o1, Assign(Atom(y), o2, Atom(z))))
  {
    var r := Assign(Atom(y), o2, Atom(z));
    var e := Assign(Atom(x), o1, r);
    assert Tokens(r) == [Operand(y), Op(o2), Operand(z)];
    assert Tokens(e) == [Operand(x), Op(o1)] + Tokens(r);
    assert Tokens(e) == [Operand(x), Op(o1), Operand(y), Op(o2), Operand(z)];
    ParseRoundTrip(e);
  }

  /** An assignment's value is a whole relationship: `$x = A -> B` is `$x = (A -> B)`. */
  lemma AssignmentTakesRelationship(x: string, o: Operator, y: string, a: Operator, z: string)
    requires IsAssignOp(o) && IsArrow(a)
    ensures Parse([Operand(x), Op(o), Operand(y), Op(a), Operand(z)])
      == Some(Assign(Atom(x), o, Chain(Atom(y), a, Atom(z))))
  {
    var r := Chain(Atom(y), a, Atom(z));
    var e := Assign(Atom(x), o, r);
    assert Tokens(r) == [Operand(y), Op(a), Operand(z)];
    assert Tokens(e) == [Operand(x), Op(o)] + Tokens(r);
    assert Tokens(e) == [Operand(x), Op(o), Operand(y), Op(a), Operand(z)];
    ParseRoundTrip(e);
  }

  /** The tokens of `? { k => v }`. */
  function SelectorOf(k: string, v: string): seq<Token> {
    [Qmark, SelBrace, Operand(k), FatArrow, Operand(v), RBrace]
  }

  /**
   * `x b y ? { k => v } b2 z` with `b` tighter than QMARK: the selector
   * takes `x b y`, and `b2` after the closing brace applies to the whole
   * selector (so `x + a ? {…} * 3` is `(x + a ? {…}) * 3`).
   */
  lemma SelectorTakesTighter(x: string, b: Operator, y: string, k: string, v: string, b2: Operator, z: string)
    requires IsBinaryOp(b) && IsBinaryOp(b2) && BinaryLevel(b) > QMARK
    ensures Parse([Operand(x), Op(b), Operand(y)] + SelectorOf(k, v) + [Op(b2), Operand(z)])
      == Some(Binary(Selector(Binary(Atom(x), b, Atom(y)), Last(Atom(k), Atom(v)), false), b2, Atom(z)))
  {
    var inner := Binary(Atom(x), b, Atom(y));
    var sel := Selector(inner, Last(Atom(k), Atom(v)), false);
    var e := Binary(sel, b2, Atom(z));
    assert Tokens(inner) == [Operand(x), Op(b), Operand(y)];
    assert OptionsTokens(Last(Atom(k), Atom(v))) == [Operand(k), FatArrow, Operand(v)];
    assert SelectorTokens(Last(Atom(k), Atom(v)), false) == SelectorOf(k, v);
    assert Tokens(sel) == Tokens(inner) + SelectorOf(k, v);
    assert Tokens(e) == Tokens(sel) + [Op(b2), Operand(z)];
    assert WF(Atom(x)) && WF(Atom(y));
    assert RightOk(Atom(x), BinaryLevel(b)) && LeftOk(Atom(y), BinaryLevel(b) + 1);
    assert WF(inner);
    assert WF(Atom(k)) && WF(Atom(v));
    assert OptionsWF(Last(Atom(k), Atom(v)));
    assert RightOk(inner, QMARK);
    assert WF(sel);
    assert Tokens(e) == [Operand(x), Op(b), Operand(y)] + SelectorOf(k, v) + [Op(b2), Operand(z)];
    ParseRoundTrip(e);
  }

  /** `x b y ? { k => v }` with `b` looser than QMARK (`and`, `or`): the selector takes only `y`. */
  lemma SelectorInsideLooser(x: string, b: Operator, y: string, k: string, v: string)
    requires IsBinaryOp(b) && BinaryLevel(b) < QMARK
    ensures Parse([Operand(x), Op(b), Operand(y)] + SelectorOf(k, v))
      == Some(Binary(Atom(x), b, Selector(Atom(y), Last(Atom(k), Atom(v)), false)))
  {
    var sel := Selector(Atom(y), Last(Atom(k), Atom(v)), false);
    var e := Binary(Atom(x), b, sel);
    assert OptionsTokens(Last(Atom(k), Atom(v))) == [Operand(k), FatArrow, Operand(v)];
    assert SelectorTokens(Last(Atom(k), Atom(v)), false) == SelectorOf(k, v);
    assert Tokens(sel) == [Operand(y)] + SelectorOf(k, v);
    assert Tokens(e) == [Operand(x), Op(b)] + Tokens(sel);
    assert WF(Atom(k)) && WF(Atom(v));
    assert OptionsWF(Last(Atom(k), Atom(v)));
    assert WF(sel);
    assert LeftOk(sel, BinaryLevel(b) + 1);
    assert Tokens(e) == [Operand(x), Op(b), Operand(y)] + SelectorOf(k, v);
    ParseRoundTrip(e);
  }
}
