/**
 * The grammar's precedence table and the operators that use it: binary
 * operators (all left-associative), the prefix operators, the selector's
 * postfix `?`, the chaining arrows and the assignment operators.
 */
module Precedence {
  const LOW: nat := 5
  const FARROW: nat := 10
  const EDGE: nat := 11
  const EQUALS: nat := 12
  const AT: nat := 13
  const OR: nat := 14
  const AND: nat := 15
  const QMARK: nat := 16
  const COMPARE: nat := 17
  const EQUALITY: nat := 18
  const SHIFT: nat := 19
  const ADD: nat := 20
  const MULTIPLY: nat := 21
  const MATCH: nat := 22
  const IN: nat := 23
  const UMINUS: nat := 24
  const SPLAT: nat := 25
  const NOT: nat := 26
  const HIGH: nat := 30

  /**
   * The table in declaration order, each level with its name; the levels
   * strictly increase and no two share a value.
   */
  function Table(): (t: seq<(string, nat)>)
    ensures |t| == 19
    ensures forall i, j :: 0 <= i < j < |t| ==> t[i].1 < t[j].1
    ensures t[0] == ("LOW", LOW) && t[|t| - 1] == ("HIGH", HIGH)
  {
    [("LOW", LOW), ("FARROW", FARROW), ("EDGE", EDGE), ("EQUALS", EQUALS), ("AT", AT),
     ("OR", OR), ("AND", AND), ("QMARK", QMARK), ("COMPARE", COMPARE), ("EQUALITY", EQUALITY),
     ("SHIFT", SHIFT), ("ADD", ADD), ("MULTIPLY", MULTIPLY), ("MATCH", MATCH), ("IN", IN),
     ("UMINUS", UMINUS), ("SPLAT", SPLAT), ("NOT", NOT), ("HIGH", HIGH)]
  }

  /** The operator tokens of the expression layer. */
  datatype Operator =
    | Not | Minus | Star | Slash | Percent | Plus
    | ShiftLeft | ShiftRight | Equal | NotEqual | Less | LessEqual | Greater | GreaterEqual
    | And | Or | In | Matches | NotMatches
    | RightArrow | RightSquiggle | LeftArrow | LeftSquiggle
    | SetTo | AddTo | SubtractFrom

  /** How an operator is written. */
  function Spelling(op: Operator): string {
    match op
    case Not => "!"
    case Minus => "-"
    case Star => "*"
    case Slash => "/"
    case Percent => "%"
    case Plus => "+"
    case ShiftLeft => "<<"
    case ShiftRight => ">>"
    case Equal => "=="
    case NotEqual => "!="
    case Less => "<"
    case LessEqual => "<="
    case Greater => ">"
    case GreaterEqual => ">="
    case And => "and"
    case Or => "or"
    case In => "in"
    case Matches => "=~"
    case NotMatches => "!~"
    case RightArrow => "->"
    case RightSquiggle => "~>"
    case LeftArrow => "<-"
    case LeftSquiggle => "<~"
    case SetTo => "="
    case AddTo => "+="
    case SubtractFrom => "-="
  }

  /**
   * The level of a binary operator, 0 for anything else. Every binary level
   * lies between OR and IN, above assignment and chaining and below the
   * prefix operators, and none shares the selector's level.
   */
  function BinaryLevel(op: Operator): (p: nat)
    ensures p == 0 || (OR <= p <= IN && p != QMARK)
    ensures p > 0 ==> EQUALS < p < UMINUS
  {
    match op
    case In => IN
    case Matches | NotMatches => MATCH
    case Star | Slash | Percent => MULTIPLY
    case Plus | Minus => ADD
    case ShiftLeft | ShiftRight => SHIFT
    case Equal | NotEqual => EQUALITY
    case Less | LessEqual | Greater | GreaterEqual => COMPARE
    case And => AND
    case Or => OR
    case _ => 0
  }

  /** The binary operators. */
  predicate IsBinaryOp(op: Operator) {
    BinaryLevel(op) != 0
  }

  /** The prefix operators: `!` (NOT), `-` (UMINUS) and `*` (SPLAT). */
  predicate IsUnaryOp(op: Operator) {
    op == Not || op == Minus || op == Star
  }

  /** The level of a prefix operator, 0 for anything else; every prefix level lies above every binary one. */
  function UnaryLevel(op: Operator): (p: nat)
    ensures p > 0 <==> IsUnaryOp(op)
    ensures p > 0 ==> IN < p < HIGH
  {
    match op
    case Not => NOT
    case Minus => UMINUS
    case Star => SPLAT
    case _ => 0
  }

  /** The chaining arrows of a relationship. */
  predicate IsArrow(op: Operator) {
    op == RightArrow || op == RightSquiggle || op == LeftArrow || op == LeftSquiggle
  }

  /** The assignment operators. */
  predicate IsAssignOp(op: Operator) {
    op == SetTo || op == AddTo || op == SubtractFrom
  }

  /** Every prefix operator binds tighter than every binary operator. */
  lemma UnaryAboveBinary(u: Operator, op: Operator)
    requires IsUnaryOp(u) && IsBinaryOp(op)
    ensures BinaryLevel(op) < UnaryLevel(u)
  {
  }

  /** The operator sets are disjoint except for `-` and `*`, which are prefix and binary. */
  lemma OperatorClasses(op: Operator)
    ensures IsArrow(op) ==> !IsBinaryOp(op) && !IsAssignOp(op) && !IsUnaryOp(op)
    ensures IsAssignOp(op) ==> !IsBinaryOp(op) && !IsUnaryOp(op)
    ensures IsUnaryOp(op) && IsBinaryOp(op) <==> op == Minus || op == Star
  {
  }
}
