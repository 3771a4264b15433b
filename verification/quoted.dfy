/**
 * The recognisers for quoted text: skipping a whole quoted string inside
 * an interpolation, the content runs of single- and double-quoted strings,
 * and double-quoted escape sequences.
 */
module QuotedStrings {
  import opened Wrappers
  import opened Chars
  import opened ScannerState

  /**
   * Text that a quoted scan passes over without stopping: characters other
   * than `quote`, where a backslash always takes the next character with it.
   */
  predicate EscapedText(w: seq<char>, quote: char)
    decreases |w|
  {
    if |w| == 0 then true
    else if w[0] == quote then false
    else if w[0] == '\\' then |w| >= 2 && EscapedText(w[2..], quote)
    else EscapedText(w[1..], quote)
  }

  /**
   * The loop of skipping a quoted string, started just after the opening
   * quote: it stops in front of the first `quote` that is not the second
   * half of a backslash pair and fails at the end of input.
   */
  function QuotedRun(s: seq<char>, quote: char): (r: Step)
    ensures r.symbol == None
    ensures r.consumed <= |s|
    ensures r.accepted ==> r.consumed < |s| && s[r.consumed] == quote && EscapedText(s[..r.consumed], quote)
    ensures !r.accepted ==> r.consumed == |s|
    decreases |s|
  {
    if |s| == 0 then Step(false, 0, None)
    else if s[0] == quote then Step(true, 0, None)
    else if s[0] == '\\' then
      if |s| == 1 then Step(false, 1, None)
      else
        var r := QuotedRun(s[2..], quote);
        assert r.accepted ==> s[..r.consumed + 2][2..] == s[2..][..r.consumed];
        Step(r.accepted, r.consumed + 2, None)
    else
      var r := QuotedRun(s[1..], quote);
      assert r.accepted ==> s[..r.consumed + 1][1..] == s[1..][..r.consumed];
      Step(r.accepted, r.consumed + 1, None)
  }

  /** The quoted run stops at the first closing quote that follows escaped text, and only there. */
  lemma {:induction false} QuotedRunFindsClose(s: seq<char>, quote: char, n: nat)
    requires n < |s| && s[n] == quote && EscapedText(s[..n], quote)
    ensures QuotedRun(s, quote) == Step(true, n, None)
    decreases n
  {
    if n > 0 {
      assert s[..n][0] == s[0];
      if s[0] == '\\' {
        assert s[..n][2..] == s[2..][..n - 2];
        QuotedRunFindsClose(s[2..], quote, n - 2);
      } else {
        assert s[..n][1..] == s[1..][..n - 1];
        QuotedRunFindsClose(s[1..], quote, n - 1);
      }
    }
  }

  /**
   * `skip_quoted_string`: called with the opening quote as lookahead, it
   * advances over it and over the quoted text, and succeeds in front of the
   * matching closing quote, which it leaves unconsumed.
   */
  function SkipQuotedString(s: seq<char>): (r: Step)
    requires |s| > 0
    ensures r.symbol == None
    ensures 1 <= r.consumed <= |s|
    ensures r.accepted ==> r.consumed < |s| && s[r.consumed] == s[0] && EscapedText(s[1..r.consumed], s[0])
    ensures !r.accepted ==> r.consumed == |s|
  {
    var r := QuotedRun(s[1..], s[0]);
    assert r.accepted ==> s[1..r.consumed + 1] == s[1..][..r.consumed];
    Step(r.accepted, r.consumed + 1, None)
  }

  /**
   * The loop of `scan_sq_string`. `hasContent` is false only on the first
   * iteration; a backslash advances over itself and the next character.
   */
  function SqLoop(s: seq<char>, hasContent: bool): (r: Step)
    ensures r.symbol == Some(SqString)
    ensures r.consumed <= |s|
    ensures r.accepted ==> r.consumed < |s| && s[r.consumed] == '\'' && (hasContent || r.consumed > 0)
    ensures r.accepted ==> EscapedText(s[..r.consumed], '\'')
    ensures !r.accepted ==> r.consumed == |s| || (r.consumed == 0 && !hasContent && s[0] == '\'')
    decreases |s|
  {
    if |s| == 0 then Step(false, 0, Some(SqString))
    else if s[0] == '\'' then Step(hasContent, 0, Some(SqString))
    else if s[0] == '\\' then
      if |s| == 1 then Step(false, 1, Some(SqString))
      else
        var r := SqLoop(s[2..], true);
        assert r.accepted ==> s[..r.consumed + 2][2..] == s[2..][..r.consumed];
        Step(r.accepted, r.consumed + 2, Some(SqString))
    else
      var r := SqLoop(s[1..], true);
      assert r.accepted ==> s[..r.consumed + 1][1..] == s[1..][..r.consumed];
      Step(r.accepted, r.consumed + 1, Some(SqString))
  }

  /**
   * `scan_sq_string`: the content of a single-quoted string up to (not
   * including) the closing quote; it succeeds only on non-empty content and
   * fails at the end of input.
   */
  function ScanSqString(s: seq<char>): (r: Step)
    ensures r.symbol == Some(SqString)
    ensures r.accepted ==> 0 < r.consumed < |s| && s[r.consumed] == '\'' && EscapedText(s[..r.consumed], '\'')
    ensures !r.accepted ==> r.consumed == |s| || (r.consumed == 0 && s[0] == '\'')
  {
    SqLoop(s, false)
  }

  /** The single-quoted content scan and the quoted-string skip stop at the same place. */
  lemma {:induction false} SqLoopIsQuotedRun(s: seq<char>, hasContent: bool)
    ensures SqLoop(s, hasContent).consumed == QuotedRun(s, '\'').consumed
    ensures SqLoop(s, hasContent).accepted == (QuotedRun(s, '\'').accepted && (hasContent || QuotedRun(s, '\'').consumed > 0))
    decreases |s|
  {
    if |s| > 0 && s[0] != '\'' {
      if s[0] == '\\' && |s| > 1 {
        SqLoopIsQuotedRun(s[2..], true);
      } else if s[0] != '\\' {
        SqLoopIsQuotedRun(s[1..], true);
      }
    }
  }

  /**
   * Single-quoted content is accepted with length `n` exactly when `n > 0`
   * characters of escaped text are followed by the closing quote.
   */
  lemma SqStringAccepts(s: seq<char>, n: nat)
    requires 0 < n < |s| && s[n] == '\'' && EscapedText(s[..n], '\'')
    ensures ScanSqString(s) == Step(true, n, Some(SqString))
  {
    QuotedRunFindsClose(s, '\'', n);
    SqLoopIsQuotedRun(s, false);
  }

  /** The characters that end a double-quoted content run. */
  predicate IsDqStop(c: char) {
    c == DoubleQuote || c == '$' || c == '\\'
  }

  /** The loop of `scan_dq_string`; `hasContent` is false only on the first iteration. */
  function DqLoop(s: seq<char>, hasContent: bool): (r: Step)
    ensures r.symbol == Some(DqString)
    ensures r.consumed <= |s|
    ensures forall j :: 0 <= j < r.consumed ==> !IsDqStop(s[j])
    ensures r.consumed < |s| ==> IsDqStop(s[r.consumed])
    ensures r.accepted <==> r.consumed < |s| && (hasContent || r.consumed > 0)
    decreases |s|
  {
    if |s| == 0 then Step(false, 0, Some(DqString))
    else if IsDqStop(s[0]) then Step(hasContent, 0, Some(DqString))
    else
      var r := DqLoop(s[1..], true);
      Step(r.accepted, r.consumed + 1, Some(DqString))
  }

  /**
   * `scan_dq_string`: the longest run of characters other than the double quote, `$`
   * and `\`; it succeeds iff that run is non-empty and is followed by one of
   * those three characters (the end of input fails).
   */
  function ScanDqString(s: seq<char>): (r: Step)
    ensures r.symbol == Some(DqString)
    ensures r.consumed <= |s|
    ensures forall j :: 0 <= j < r.consumed ==> !IsDqStop(s[j])
    ensures r.consumed < |s| ==> IsDqStop(s[r.consumed])
    ensures r.accepted <==> 0 < r.consumed < |s|
  {
    DqLoop(s, false)
  }

  /**
   * `scan_dq_escape_sequence`: a backslash and the character after it.
   * A lone backslash at the end of input is advanced over but rejected.
   */
  function ScanDqEscapeSequence(s: seq<char>): (r: Step)
    ensures r.accepted <==> |s| >= 2 && s[0] == '\\'
    ensures r.accepted ==> r.consumed == 2 && r.symbol == Some(DqEscapeSequence)
    ensures !r.accepted ==> r.symbol == None && r.consumed == (if |s| == 1 && s[0] == '\\' then 1 else 0)
  {
    if |s| == 0 || s[0] != '\\' then Step(false, 0, None)
    else if |s| == 1 then Step(false, 1, None)
    else Step(true, 2, Some(DqEscapeSequence))
  }
}
