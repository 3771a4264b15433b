/**
 * `scan_interpolation`: the `$name` and `${...}` spans inside double-quoted
 * strings and heredocs.
 */
module Interpolations {
  import opened Wrappers
  import opened Chars
  import opened ScannerState
  import opened QuotedStrings

  /**
   * The text between `${` and its closing `}`: no `}` outside quotes, and
   * every quote opens a quoted string of escaped text that is closed by the
   * same quote character.
   */
  predicate BraceText(w: seq<char>)
    decreases |w|
  {
    if |w| == 0 then true
    else if w[0] == '}' then false
    else if IsQuote(w[0]) then
      exists k :: 1 <= k < |w| && w[k] == w[0] && EscapedText(w[1..k], w[0]) && BraceText(w[k + 1..])
    else BraceText(w[1..])
  }

  /** The loop of the `$name` style: it advances over name characters and succeeds at the first other one. */
  function NameLoop(s: seq<char>): (r: Step)
    ensures r.symbol == None
    ensures r.consumed <= |s|
    ensures forall j :: 0 <= j < r.consumed ==> IsVariableNameChar(s[j])
    ensures r.consumed < |s| ==> !IsVariableNameChar(s[r.consumed])
    ensures r.accepted <==> r.consumed < |s|
    decreases |s|
  {
    if |s| == 0 then Step(false, 0, None)
    else if !IsVariableNameChar(s[0]) then Step(true, 0, None)
    else
      var r := NameLoop(s[1..]);
      Step(r.accepted, r.consumed + 1, None)
  }

  /** The first `n` characters of `s` are brace text closed by `}`. */
  predicate ClosedAt(s: seq<char>, n: nat) {
    1 <= n <= |s| && s[n - 1] == '}' && BraceText(s[..n - 1])
  }

  /** What the brace loop promises about its result on `s`. */
  predicate LoopResult(s: seq<char>, r: Step) {
    && r.symbol == None
    && r.consumed <= |s|
    && (r.accepted ==> ClosedAt(s, r.consumed))
    && (!r.accepted ==> r.consumed == |s|)
  }

  /**
   * The loop of the `${...}` style: it succeeds just after the first `}`
   * outside quotes, skipping quoted strings whole; an unterminated quoted
   * string or the end of input fails after consuming everything.
   */
  function BraceLoop(s: seq<char>): (r: Step)
    ensures LoopResult(s, r)
    decreases |s|
  {
    if |s| == 0 then Step(false, 0, None)
    else if s[0] == '}' then
      assert s[..0] == [];
      Step(true, 1, None)
    else if IsQuote(s[0]) then
      var q := SkipQuotedString(s);
      if !q.accepted then Step(false, q.consumed, None)
      else
        var k := q.consumed;
        var r := BraceLoop(s[k + 1..]);
        BraceTextQuoted(s, k, r);
        Step(r.accepted, r.consumed + k + 1, None)
    else
      var r := BraceLoop(s[1..]);
      BraceTextPlain(s, r);
      Step(r.accepted, r.consumed + 1, None)
  }

  /** A quoted string closed at `k`, then what the loop found after it, is what the loop finds. */
  lemma BraceTextQuoted(s: seq<char>, k: nat, r: Step)
    requires 1 <= k < |s| && IsQuote(s[0]) && s[k] == s[0] && EscapedText(s[1..k], s[0])
    requires LoopResult(s[k + 1..], r)
    ensures LoopResult(s, Step(r.accepted, r.consumed + k + 1, None))
  {
    if r.accepted {
      var m := r.consumed;
      var w := s[..m + k];
      assert w[0] == s[0] && w[0] != '}';
      assert w[k + 1..] == s[k + 1..][..m - 1];
      assert w[1..k] == s[1..k];
      assert w[k] == w[0];
    }
  }

  /** A character that is neither `}` nor a quote, then what the loop found after it, is what the loop finds. */
  lemma BraceTextPlain(s: seq<char>, r: Step)
    requires |s| > 0 && s[0] != '}' && !IsQuote(s[0])
    requires LoopResult(s[1..], r)
    ensures LoopResult(s, Step(r.accepted, r.consumed + 1, None))
  {
    if r.accepted {
      var m := r.consumed;
      assert s[..m + 1][0] == s[0];
      assert s[..m + 1][1..] == s[1..][..m];
      assert s[..m][1..] == s[1..][..m - 1];
    }
  }

  /** The brace loop closes at the first `}` that follows brace text, and only there. */
  lemma {:induction false} BraceLoopFindsClose(s: seq<char>, n: nat)
    requires n < |s| && s[n] == '}' && BraceText(s[..n])
    ensures BraceLoop(s) == Step(true, n + 1, None)
    decreases n
  {
    if n > 0 {
      var w := s[..n];
      assert w[0] == s[0];
      if IsQuote(s[0]) {
        var k := QuotedPrefix(s, n);
        BraceLoopFindsClose(s[k + 1..], n - k - 1);
      } else {
        assert w[1..] == s[1..][..n - 1];
        BraceLoopFindsClose(s[1..], n - 1);
      }
    }
  }

  /** Brace text starting with a quote: the quoted string closes at `k`, where the string skip stops, and brace text follows. */
  lemma QuotedPrefix(s: seq<char>, n: nat) returns (k: nat)
    requires 0 < n < |s| && IsQuote(s[0]) && BraceText(s[..n])
    ensures 1 <= k < n && SkipQuotedString(s) == Step(true, k, None)
    ensures BraceText(s[k + 1..][..n - k - 1]) && s[k + 1..][n - k - 1] == s[n]
  {
    k := QuoteSplit(s[..n]);
    SuffixOfPrefix(s, n, 1);
    SuffixOfPrefix(s[1..], n - 1, 0);
    SuffixOfPrefix(s, n, k + 1);
    InnerOfPrefix(s, n, k);
    QuotedRunFindsClose(s[1..], s[0], k - 1);
  }

  /** Brace text starting with a quote splits at the quote that closes it. */
  lemma QuoteSplit(w: seq<char>) returns (k: nat)
    requires |w| > 0 && IsQuote(w[0]) && BraceText(w)
    ensures 1 <= k < |w| && w[k] == w[0] && EscapedText(w[1..k], w[0]) && BraceText(w[k + 1..])
  {
    k :| 1 <= k < |w| && w[k] == w[0] && EscapedText(w[1..k], w[0]) && BraceText(w[k + 1..]);
  }

  /** Inside the first `n` elements, the part from 1 to `k` is the first `k - 1` elements from 1 on. */
  lemma InnerOfPrefix(s: seq<char>, n: nat, k: nat)
    requires 1 <= k < n <= |s|
    ensures s[..n][1..k] == s[1..][..k - 1]
    ensures s[..n][0] == s[0] && s[..n][k] == s[1..][k - 1]
  {
  }

  /** The part of the first `n` elements from `j` on is the first `n - j` elements from `j` on. */
  lemma SuffixOfPrefix(s: seq<char>, n: nat, j: nat)
    requires j <= n < |s|
    ensures s[..n][j..] == s[j..][..n - j]
    ensures s[j..][n - j] == s[n]
  {
  }

  /**
   * `scan_interpolation`. Without a leading `$` it rejects and consumes
   * nothing. After `$` it needs `{` or a name character; otherwise it rejects
   * with the `$` consumed. `$name` consumes the maximal run of name characters
   * and succeeds only if some character follows; `${...}` ends after the first
   * `}` outside quotes.
   */
  function ScanInterpolation(s: seq<char>): (r: Step)
    ensures r.consumed <= |s|
    ensures (|s| == 0 || s[0] != '$') ==> r == Step(false, 0, None)
    ensures |s| > 0 && s[0] == '$' ==> r.symbol == Some(Interpolation) && r.consumed >= 1
    ensures |s| > 0 && s[0] == '$' && (|s| == 1 || (s[1] != '{' && !IsVariableNameChar(s[1]))) ==>
              !r.accepted && r.consumed == 1
    ensures |s| >= 2 && s[0] == '$' && IsVariableNameChar(s[1]) ==>
              && r.consumed >= 2
              && (forall j :: 1 <= j < r.consumed ==> IsVariableNameChar(s[j]))
              && (r.consumed < |s| ==> !IsVariableNameChar(s[r.consumed]))
              && (r.accepted <==> r.consumed < |s|)
    ensures |s| >= 2 && s[0] == '$' && s[1] == '{' ==>
              && (r.accepted ==> r.consumed >= 3 && s[r.consumed - 1] == '}' && BraceText(s[2..r.consumed - 1]))
              && (!r.accepted ==> r.consumed == |s|)
  {
    if |s| == 0 || s[0] != '$' then Step(false, 0, None)
    else if |s| == 1 then Step(false, 1, Some(Interpolation))
    else if s[1] == '{' then
      var b := BraceLoop(s[2..]);
      assert b.accepted ==> s[2..b.consumed + 1] == s[2..][..b.consumed - 1];
      Step(b.accepted, b.consumed + 2, Some(Interpolation))
    else if IsVariableNameChar(s[1]) then
      var v := NameLoop(s[2..]);
      Step(v.accepted, v.consumed + 2, Some(Interpolation))
    else Step(false, 1, Some(Interpolation))
  }

  /** `${` followed by brace text and `}` is accepted as exactly that span. */
  lemma BraceInterpolationAccepts(s: seq<char>, n: nat)
    requires |s| >= 2 && s[0] == '$' && s[1] == '{'
    requires 3 <= n <= |s| && s[n - 1] == '}' && BraceText(s[2..n - 1])
    ensures ScanInterpolation(s) == Step(true, n, Some(Interpolation))
  {
    assert s[2..][..n - 3] == s[2..n - 1];
    BraceLoopFindsClose(s[2..], n - 3);
  }
}
