/**
 * The scanner's entry point: which recogniser runs for a given set of
 * valid symbols, in which order, and how a failed recogniser's advance
 * carries over into the next one.
 */
module Dispatch {
  import opened Wrappers
  import opened Chars
  import opened ScannerState
  import opened QuotedStrings
  import opened Interpolations
  import opened SelectorBrace
  import opened Heredocs

  /** A scan that ran after `k` characters were already advanced over; a failure sets no symbol. */
  function After(k: nat, r: Scan): Scan {
    Scan(r.accepted, k + r.consumed, if r.accepted then r.symbol else None, r.state)
  }

  /** A stateless recogniser's answer as a scan that keeps `st`. */
  function Lift(r: Step, st: State): Scan {
    Scan(r.accepted, r.consumed, r.symbol, st)
  }

  /** True when the parser is in selector mode, where only `?` and the selector brace are scanned. */
  predicate SelectorMode(valid: set<Symbol>) {
    Qmark in valid || Selbrace in valid
  }

  /**
   * `r` is the answer of the recogniser that answered `q`, started after `k`
   * characters were already advanced over: the same verdict and state, the
   * advance counted from the lexer's position, and a symbol only on success.
   */
  predicate Reports(r: Scan, k: nat, q: Scan) {
    && r.accepted == q.accepted
    && r.consumed == k + q.consumed
    && r.state == q.state
    && r.symbol == (if q.accepted then q.symbol else None)
  }

  /** The heredoc body scan is wanted and possible: a body symbol is valid and a tag is stored. */
  predicate BodyWanted(valid: set<Symbol>, st: State) {
    (HeredocBody in valid || HeredocEnd in valid) && |st.heredocTag| > 0
  }

  /** No escape sequence can start here: it is not valid, or no backslash is ahead. */
  predicate NoEscapeAhead(s: seq<char>, valid: set<Symbol>) {
    DqEscapeSequence !in valid || |s| == 0 || s[0] != '\\'
  }

  /**
   * The string and heredoc stage, at the position the escape and
   * interpolation attempts left the lexer: the first valid kind among
   * double-quoted content, single-quoted content, heredoc header and heredoc
   * body runs, and its answer is final. The body scan needs a non-empty tag.
   */
  function ScanText(s: seq<char>, st: State, valid: set<Symbol>): (r: Scan)
    ensures r.consumed <= |s|
    ensures r.accepted ==> r.symbol.Some?
    ensures !r.accepted ==> r.symbol == None
    ensures r.accepted && r.symbol.value in {HeredocBody, HeredocEnd} ==> |st.heredocTag| > 0
    ensures r.state.checkSelbrace == st.checkSelbrace
    ensures st.interpolationAllowed ==> r.state.interpolationAllowed
    ensures r.accepted ==> Reportable(r.symbol.value, valid)
    ensures r.state.heredocTag != st.heredocTag ==> HeredocStart in valid || HeredocBody in valid || HeredocEnd in valid
    ensures DqString in valid ==> Reports(r, 0, Lift(ScanDqString(s), st))
    ensures DqString !in valid && SqString in valid ==> Reports(r, 0, Lift(ScanSqString(s), st))
    ensures DqString !in valid && SqString !in valid && HeredocStart in valid ==> Reports(r, 0, ScanHeredocStart(s, st))
    ensures DqString !in valid && SqString !in valid && HeredocStart !in valid && BodyWanted(valid, st)
      ==> Reports(r, 0, ScanHeredocBody(s, st))
    ensures DqString !in valid && SqString !in valid && HeredocStart !in valid && !BodyWanted(valid, st)
      ==> r == Scan(false, 0, None, st)
  {
    if DqString in valid then After(0, Lift(ScanDqString(s), st))
    else if SqString in valid then
      var q := ScanSqString(s);
      After(0, Lift(q, st))
    else if HeredocStart in valid then After(0, ScanHeredocStart(s, st))
    else if BodyWanted(valid, st) then After(0, ScanHeredocBody(s, st))
    else Scan(false, 0, None, st)
  }

  /**
   * The scan outside selector mode: an escape sequence is tried first, then
   * an interpolation, each only when valid; a failed attempt keeps the
   * characters it advanced over, and the string and heredoc stage continues
   * from there. An escape sequence, when valid and present, always wins, and
   * an accepted interpolation (`${...}` or `$name`) wins over any content.
   */
  function ScanString(s: seq<char>, st: State, valid: set<Symbol>): (r: Scan)
    ensures r.consumed <= |s|
    ensures r.accepted ==> r.symbol.Some? && Reportable(r.symbol.value, valid)
    ensures !r.accepted ==> r.symbol == None
    ensures r.state.checkSelbrace == st.checkSelbrace
    ensures r.state.heredocTag != st.heredocTag ==> HeredocStart in valid || HeredocBody in valid || HeredocEnd in valid
    ensures st.interpolationAllowed ==> r.state.interpolationAllowed
    ensures r.accepted && r.symbol.value in {HeredocBody, HeredocEnd} ==> |st.heredocTag| > 0
    ensures DqEscapeSequence in valid && |s| >= 2 && s[0] == '\\' ==> r == Scan(true, 2, Some(DqEscapeSequence), st)
    ensures DqEscapeSequence in valid && s == ['\\'] ==> Reports(r, 1, ScanText([], st, valid))
    ensures NoEscapeAhead(s, valid) && Interpolation in valid && ScanInterpolation(s).accepted
      ==> Reports(r, 0, Lift(ScanInterpolation(s), st))
    ensures NoEscapeAhead(s, valid) && Interpolation in valid && !ScanInterpolation(s).accepted
      ==> var k := ScanInterpolation(s).consumed; Reports(r, k, ScanText(s[k..], st, valid))
    ensures NoEscapeAhead(s, valid) && Interpolation !in valid ==> Reports(r, 0, ScanText(s, st, valid))
  {
    var e := if DqEscapeSequence in valid then ScanDqEscapeSequence(s) else Step(false, 0, None);
    if e.accepted then Lift(e, st)
    else
      var i := if Interpolation in valid then ScanInterpolation(s[e.consumed..]) else Step(false, 0, None);
      if i.accepted then After(e.consumed, Lift(i, st))
      else
        var p := e.consumed + i.consumed;
        After(p, ScanText(s[p..], st, valid))
  }

  /**
   * `tree_sitter_puppet_external_scanner_scan`. In selector mode only the
   * selector-brace scan runs, and its answer is final; otherwise the string
   * scan does. With no symbol valid, nothing is scanned.
   */
  function Dispatch(s: seq<char>, st: State, valid: set<Symbol>): (r: Scan)
    ensures r.consumed <= |s|
    ensures r.accepted ==> r.symbol.Some?
    ensures !r.accepted ==> r.symbol == None
    ensures SelectorMode(valid) && r.accepted ==> r.symbol.value in {Qmark, Selbrace}
    ensures SelectorMode(valid) ==> Reports(r, 0, ScanSelbrace(s, st))
    ensures SelectorMode(valid) ==> r.state.heredocTag == st.heredocTag && r.state.interpolationAllowed == st.interpolationAllowed
    ensures !SelectorMode(valid) ==> r == ScanString(s, st, valid)
    ensures !SelectorMode(valid) ==> r.state.checkSelbrace == st.checkSelbrace
    ensures r.state.heredocTag != st.heredocTag ==> !SelectorMode(valid) && (HeredocStart in valid || HeredocBody in valid || HeredocEnd in valid)
    ensures st.interpolationAllowed ==> r.state.interpolationAllowed
    ensures r.accepted && r.symbol.value in {HeredocBody, HeredocEnd} ==> |st.heredocTag| > 0
    ensures r.accepted ==> Reportable(r.symbol.value, valid)
    ensures !SelectorMode(valid) && DqEscapeSequence in valid && |s| >= 2 && s[0] == '\\'
      ==> r == Scan(true, 2, Some(DqEscapeSequence), st)
    ensures !SelectorMode(valid) && NoEscapeAhead(s, valid) && Interpolation in valid && ScanInterpolation(s).accepted
      ==> r == Scan(true, ScanInterpolation(s).consumed, Some(Interpolation), st)
    ensures valid == {} ==> r == Scan(false, 0, None, st)
  {
    if SelectorMode(valid) then After(0, ScanSelbrace(s, st))
    else ScanString(s, st, valid)
  }

  /**
   * The symbols an accepted scan may report for a set of valid symbols:
   * every accepted symbol was asked for, except that the two selector
   * tokens and the two heredoc body tokens stand in for each other.
   */
  predicate Reportable(sym: Symbol, valid: set<Symbol>) {
    || sym in valid
    || (sym in {Qmark, Selbrace} && SelectorMode(valid))
    || (sym in {HeredocBody, HeredocEnd} && (HeredocBody in valid || HeredocEnd in valid))
  }

  /**
   * A selector brace is reported when only `?` was asked for: the
   * selector-mode scan does not look at which of the two was valid.
   */
  lemma SelbraceWhenOnlyQmarkValid(s: seq<char>, st: State)
    requires st.checkSelbrace
    requires LeadingSpace(s) < |s| && s[LeadingSpace(s)] == '{'
    ensures var r := Dispatch(s, st, {Qmark});
      && r.accepted && r.symbol == Some(Selbrace) && Selbrace !in {Qmark}
      && r.consumed == LeadingSpace(s) + 1 && r.state == st.(checkSelbrace := false)
  {
  }

  /**
   * A heredoc end is reported when only the body token was asked for, and
   * it may close the heredoc in the middle of a line: the input from the
   * lexer's position need only spell the tag in its alphanumerics.
   */
  lemma HeredocEndWhenOnlyBodyValid(s: seq<char>, st: State)
    requires forall j :: 0 <= j < |s| ==> s[j] != '\n' && s[j] != '\\' && s[j] != '$'
    requires Alnums(s) == st.heredocTag && |st.heredocTag| > 0
    ensures Dispatch(s, st, {HeredocBody}) == Scan(true, |s|, Some(HeredocEnd), st.(heredocTag := []))
  {
    RestOfLineCloses(s, st);
    BodyOnlyScans(s, st);
  }

  /** With only the body token valid and a tag stored, the call is the heredoc body scan. */
  lemma BodyOnlyScans(s: seq<char>, st: State)
    requires |st.heredocTag| > 0
    ensures Reports(Dispatch(s, st, {HeredocBody}), 0, ScanHeredocBody(s, st))
  {
    var valid := {HeredocBody};
    assert !SelectorMode(valid) && NoEscapeAhead(s, valid) && Interpolation !in valid;
    assert DqString !in valid && SqString !in valid && HeredocStart !in valid && BodyWanted(valid, st);
    var t := ScanText(s, st, valid);
    assert Reports(t, 0, ScanHeredocBody(s, st));
    assert Reports(Dispatch(s, st, valid), 0, t);
  }

  /**
   * An interpolation at the lexer position is reported before any string
   * content, and leaves the state alone.
   */
  lemma InterpolationBeforeContent(s: seq<char>, st: State, valid: set<Symbol>, n: nat)
    requires !SelectorMode(valid) && Interpolation in valid
    requires |s| >= 2 && s[0] == '$' && s[1] == '{'
    requires 3 <= n <= |s| && s[n - 1] == '}' && BraceText(s[2..n - 1])
    ensures Dispatch(s, st, valid) == Scan(true, n, Some(Interpolation), st)
  {
    BraceInterpolationAccepts(s, n);
  }

  /**
   * A `$` that starts no interpolation stays consumed, and the double-quoted
   * content scan continues after it: its answer, shifted by one, is the
   * answer of the call, so the content token includes the `$`.
   */
  lemma DollarJoinsContent(s: seq<char>, st: State, valid: set<Symbol>)
    requires !SelectorMode(valid) && Interpolation in valid && DqString in valid
    requires |s| >= 2 && s[0] == '$' && s[1] != '{' && !IsVariableNameChar(s[1])
    ensures Dispatch(s, st, valid) == After(1, Lift(ScanDqString(s[1..]), st))
  {
    assert NoEscapeAhead(s, valid);
    assert ScanInterpolation(s) == Step(false, 1, None) || ScanInterpolation(s) == Step(false, 1, Some(Interpolation));
  }

  /**
   * The other side of the same rule: a `$` right before the closing double
   * quote makes the whole call fail, since the content scan after it has no
   * content of its own.
   */
  lemma DollarBeforeCloseRejects(s: seq<char>, st: State, valid: set<Symbol>)
    requires !SelectorMode(valid) && Interpolation in valid && DqString in valid
    requires |s| >= 2 && s[0] == '$' && s[1] == DoubleQuote
    ensures !Dispatch(s, st, valid).accepted && Dispatch(s, st, valid).consumed == 1
  {
    DollarJoinsContent(s, st, valid);
    assert s[1..][0] == DoubleQuote;
  }

  /** One call of the scanner: the input from the lexer's position, and the valid symbols. */
  datatype Call = Call(input: seq<char>, valid: set<Symbol>)

  /** The tokens a series of calls reported, and the state after them. */
  datatype Trace = Trace(symbols: seq<Symbol>, state: State)

  /**
   * The state after a series of scanner calls, each with its own input and
   * valid symbols; the parser may lex its own tokens between them. A
   * rejected call reports nothing and changes nothing.
   */
  function Session(st: State, calls: seq<Call>): (r: Trace)
    ensures |r.symbols| <= |calls|
    ensures r.symbols == [] ==> r.state == st
    decreases |calls|
  {
    if |calls| == 0 then Trace([], st)
    else
      var d := Dispatch(calls[0].input, st, calls[0].valid);
      if d.accepted then
        var rest := Session(d.state, calls[1..]);
        Trace([d.symbol.value] + rest.symbols, rest.state)
      else Session(st, calls[1..])
  }

  /** Once a heredoc header allowed interpolation, no later call takes the permission back. */
  lemma {:induction false} InterpolationSticky(st: State, calls: seq<Call>)
    requires st.interpolationAllowed
    ensures Session(st, calls).state.interpolationAllowed
    decreases |calls|
  {
    if |calls| > 0 {
      var d := Dispatch(calls[0].input, st, calls[0].valid);
      if d.accepted {
        InterpolationSticky(d.state, calls[1..]);
      } else {
        InterpolationSticky(st, calls[1..]);
      }
    }
  }

  /** A session outside selector mode never touches the selector flag. */
  lemma {:induction false} SelectorFlagUntouched(st: State, calls: seq<Call>)
    requires forall j :: 0 <= j < |calls| ==> !SelectorMode(calls[j].valid)
    ensures Session(st, calls).state.checkSelbrace == st.checkSelbrace
    decreases |calls|
  {
    if |calls| > 0 {
      var d := Dispatch(calls[0].input, st, calls[0].valid);
      if d.accepted {
        SelectorFlagUntouched(d.state, calls[1..]);
      } else {
        SelectorFlagUntouched(st, calls[1..]);
      }
    }
  }
}
