/**
 * The external scanner's token kinds, its persistent state, and the shape
 * of a recogniser's answer.
 */
module ScannerState {
  import opened Wrappers

  /** The external tokens, in the order of the scanner's token enumeration. */
  datatype Symbol =
    | Qmark
    | Selbrace
    | SqString
    | DqString
    | HeredocStart
    | HeredocBody
    | HeredocEnd
    | Interpolation
    | DqEscapeSequence

  /**
   * The state kept between calls: the tag a heredoc body must end with,
   * whether the heredoc header allowed interpolation, and whether the last
   * selector-mode token was a `?`.
   */
  datatype State = State(heredocTag: seq<char>, interpolationAllowed: bool, checkSelbrace: bool)

  /** The state after creation and at the start of every deserialisation. */
  const Initial: State := State([], false, false)

  /**
   * The answer of a recogniser that does not touch the scanner state:
   * whether it accepted, how many characters it advanced over, and the
   * result symbol it set (if it set one).
   */
  datatype Step = Step(accepted: bool, consumed: nat, symbol: Option<Symbol>)

  /** The answer of a recogniser that also updates the scanner state. */
  datatype Scan = Scan(accepted: bool, consumed: nat, symbol: Option<Symbol>, state: State)
}
