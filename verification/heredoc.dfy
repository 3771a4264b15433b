/**
 * The heredoc recognisers: the header between `@(` and `)`, and the body,
 * which is matched line by line against the header's tag.
 */
module Heredocs {
  import opened Wrappers
  import opened Chars
  import opened ScannerState

  /** `s` has at least `n` characters, and a double quote lies among the first `n`. */
  predicate QuoteAmong(s: seq<char>, n: nat) {
    n <= |s| && DoubleQuote in s[..n]
  }

  /** The characters a flag section runs over: alphanumerics after `:`, letters after `/`. */
  predicate FlagChar(syntax: bool, c: char) {
    if syntax then IsAlnum(c) else IsAlpha(c)
  }

  /** The length of the longest prefix of `s` of flag characters of the given kind. */
  function RunLength(s: seq<char>, syntax: bool): (k: nat)
    ensures k <= |s|
    ensures forall j :: 0 <= j < k ==> FlagChar(syntax, s[j])
    ensures k < |s| ==> !FlagChar(syntax, s[k])
    decreases |s|
  {
    if |s| == 0 || !FlagChar(syntax, s[0]) then 0 else 1 + RunLength(s[1..], syntax)
  }

  /** `r` shifted by `k` characters advanced over before it. */
  function Advance(k: nat, r: Scan): Scan {
    r.(consumed := r.consumed + k)
  }

  /** A tag extension: `tag` starts with `prior`, and everything after it is alphanumeric. */
  predicate ExtendsWithAlnums(prior: seq<char>, tag: seq<char>) {
    prior <= tag && forall j :: |prior| <= j < |tag| ==> IsAlnum(tag[j])
  }

  /** A character the header loop advances over. */
  predicate IsHeaderChar(c: char) {
    c != '\n' && c != ')' && (c == DoubleQuote || IsAlnum(c) || c == ':' || c == '/' || IsSpace(c))
  }

  /** The length of a `:syntax` (alphanumeric) or `/escapes` (alphabetic) run at the start of `s`. */
  function FlagRun(s: seq<char>): (k: nat)
    requires |s| > 0 && (s[0] == ':' || s[0] == '/')
    ensures 1 <= k <= |s|
    ensures forall j :: 0 < j < k ==> s[j] != DoubleQuote
  {
    1 + RunLength(s[1..], s[0] == ':')
  }

  /** How far one step of the header loop advances, and the state it continues with. */
  datatype HeaderMove = HeaderMove(advance: nat, next: State)

  /**
   * One step of the header loop over a header character: a double quote allows
   * interpolation, an alphanumeric is appended to the tag, `:` skips the
   * alphanumeric syntax name and `/` the alphabetic escape flags, and
   * whitespace is skipped. The answer is how far the loop advances and the
   * state it continues with.
   */
  function HeaderStep(s: seq<char>, st: State): (r: HeaderMove)
    requires |s| > 0 && IsHeaderChar(s[0])
    ensures 1 <= r.advance <= |s|
    ensures r.next.checkSelbrace == st.checkSelbrace
    ensures r.next.interpolationAllowed == (st.interpolationAllowed || QuoteAmong(s, r.advance))
    ensures ExtendsWithAlnums(st.heredocTag, r.next.heredocTag)
  {
    if s[0] == DoubleQuote then HeaderMove(1, st.(interpolationAllowed := true))
    else if IsAlnum(s[0]) then HeaderMove(1, st.(heredocTag := st.heredocTag + [s[0]]))
    else if s[0] == ':' || s[0] == '/' then HeaderMove(FlagRun(s), st)
    else HeaderMove(1, st)
  }

  /**
   * The loop of `scan_heredoc_start`, started after `@(`, stepping over
   * header characters. At `)` (left unconsumed) it succeeds iff the tag is
   * non-empty; a newline or any other character clears the tag and fails;
   * the end of input fails and keeps the tag.
   */
  function HeredocStartLoop(s: seq<char>, st: State): (r: Scan)
    ensures r.symbol == Some(HeredocStart)
    ensures r.consumed <= |s|
    ensures r.state.checkSelbrace == st.checkSelbrace
    decreases |s|
  {
    if |s| == 0 then Scan(false, 0, Some(HeredocStart), st)
    else if IsHeaderChar(s[0]) then
      var m := HeaderStep(s, st);
      Advance(m.advance, HeredocStartLoop(s[m.advance..], m.next))
    else if s[0] == ')' then Scan(|st.heredocTag| > 0, 0, Some(HeredocStart), st)
    else Scan(false, 0, Some(HeredocStart), st.(heredocTag := []))
  }

  /**
   * Where the header loop stops and what it answers: in front of `)` it
   * succeeds iff the tag is non-empty, in front of any other character it
   * fails with the tag cleared, and at the end of input it fails.
   */
  lemma {:induction false} HeredocStartStops(s: seq<char>, st: State)
    ensures var r := HeredocStartLoop(s, st);
      && (r.consumed < |s| ==> !IsHeaderChar(s[r.consumed]))
      && (r.accepted <==> r.consumed < |s| && s[r.consumed] == ')' && |r.state.heredocTag| > 0)
      && (r.consumed < |s| && s[r.consumed] != ')' ==> r.state.heredocTag == [])
    decreases |s|
  {
    if |s| > 0 && IsHeaderChar(s[0]) {
      var m := HeaderStep(s, st);
      var k, next := m.advance, m.next;
      HeredocStartStops(s[k..], next);
    }
  }

  /**
   * The tag characters among the first `n` characters of header text `s`:
   * its alphanumerics, except those in a `:syntax` run or an `/escapes` run.
   */
  function TagChars(s: seq<char>, n: nat): (t: seq<char>)
    ensures |t| <= n
    ensures forall j :: 0 <= j < |t| ==> IsAlnum(t[j])
    decreases n
  {
    if n == 0 || |s| == 0 then []
    else if s[0] == ':' || s[0] == '/' then
      var k := FlagRun(s);
      if n <= k then [] else TagChars(s[k..], n - k)
    else (if IsAlnum(s[0]) then [s[0]] else []) + TagChars(s[1..], n - 1)
  }

  /** One header step contributes to the tag exactly the tag characters it advances over. */
  lemma TagCharsStep(s: seq<char>, st: State, n: nat)
    requires |s| > 0 && IsHeaderChar(s[0])
    requires HeaderStep(s, st).advance <= n
    ensures var m := HeaderStep(s, st);
      st.heredocTag + TagChars(s, n) == m.next.heredocTag + TagChars(s[m.advance..], n - m.advance)
  {
    if s[0] == ':' || s[0] == '/' {
      assert HeaderStep(s, st) == HeaderMove(FlagRun(s), st);
      FlagCharsSkipped(s, n);
    } else {
      SingleCharStep(s, st, n);
    }
  }

  /** A header character outside a flag run contributes itself if it is alphanumeric, and nothing otherwise. */
  lemma SingleCharStep(s: seq<char>, st: State, n: nat)
    requires |s| > 0 && IsHeaderChar(s[0]) && s[0] != ':' && s[0] != '/' && 1 <= n
    ensures var m := HeaderStep(s, st);
      m.advance == 1 && st.heredocTag + TagChars(s, n) == m.next.heredocTag + TagChars(s[1..], n - 1)
  {
    var m := HeaderStep(s, st);
    assert TagChars(s, n) == (if IsAlnum(s[0]) then [s[0]] else []) + TagChars(s[1..], n - 1);
    if IsAlnum(s[0]) {
      assert m.next.heredocTag == st.heredocTag + [s[0]];
      Assoc(st.heredocTag, [s[0]], TagChars(s[1..], n - 1));
    } else {
      assert m.next.heredocTag == st.heredocTag;
    }
  }

  /** A flag run contributes no tag characters. */
  lemma FlagCharsSkipped(s: seq<char>, n: nat)
    requires |s| > 0 && (s[0] == ':' || s[0] == '/') && FlagRun(s) <= n
    ensures TagChars(s, n) == TagChars(s[FlagRun(s)..], n - FlagRun(s))
  {
  }

  lemma Assoc(a: seq<char>, b: seq<char>, c: seq<char>)
    ensures a + (b + c) == a + b + c
  {
  }

  /**
   * What the header loop promises about the tag: the stored tag is the old
   * tag followed by exactly the tag characters the loop passed over, unless
   * the loop cleared it; it was not cleared when the loop stopped in front
   * of `)` or at the end of input.
   */
  predicate TagKept(s: seq<char>, st: State, r: Scan)
    requires r.consumed <= |s|
  {
    && (r.state.heredocTag == [] || r.state.heredocTag == st.heredocTag + TagChars(s, r.consumed))
    && (r.consumed == |s| || s[r.consumed] == ')' ==> r.state.heredocTag == st.heredocTag + TagChars(s, r.consumed))
  }

  /** The header loop keeps the tag as `TagKept` describes. */
  lemma {:induction false} HeredocStartTag(s: seq<char>, st: State)
    ensures TagKept(s, st, HeredocStartLoop(s, st))
    decreases |s|
  {
    if |s| > 0 && IsHeaderChar(s[0]) {
      var m := HeaderStep(s, st);
      var k, next := m.advance, m.next;
      HeredocStartTag(s[k..], next);
      var after := HeredocStartLoop(s[k..], next);
      assert HeredocStartLoop(s, st) == Advance(k, after);
      TagKeptStep(s, st, after);
    }
  }

  /** A header step followed by a loop that keeps the tag keeps the tag. */
  lemma TagKeptStep(s: seq<char>, st: State, after: Scan)
    requires |s| > 0 && IsHeaderChar(s[0])
    requires after.consumed <= |s| - HeaderStep(s, st).advance
    requires TagKept(s[HeaderStep(s, st).advance..], HeaderStep(s, st).next, after)
    ensures TagKept(s, st, Advance(HeaderStep(s, st).advance, after))
  {
    var k := HeaderStep(s, st).advance;
    assert after.consumed < |s[k..]| ==> s[k + after.consumed] == s[k..][after.consumed];
    TagCharsStep(s, st, k + after.consumed);
  }

  /** A tag followed by tag characters extends it with alphanumerics. */
  lemma ExtendsByTagChars(tag: seq<char>, s: seq<char>, n: nat)
    ensures ExtendsWithAlnums(tag, tag + TagChars(s, n))
  {
  }

  /** The header loop allows interpolation iff it was allowed before or it passed over a double quote. */
  lemma {:induction false} HeredocStartInterpolation(s: seq<char>, st: State)
    ensures var r := HeredocStartLoop(s, st);
      r.state.interpolationAllowed == (st.interpolationAllowed || QuoteAmong(s, r.consumed))
    decreases |s|
  {
    if |s| > 0 && IsHeaderChar(s[0]) {
      var m := HeaderStep(s, st);
      var k, next := m.advance, m.next;
      HeredocStartInterpolation(s[k..], next);
      QuoteInSplit(s, k, HeredocStartLoop(s[k..], next).consumed);
    }
  }

  /** A double quote lies in the first `k + n` characters iff it lies in the first `k` or in the `n` after them. */
  lemma QuoteInSplit(s: seq<char>, k: nat, n: nat)
    requires k + n <= |s|
    ensures QuoteAmong(s, k + n) == (QuoteAmong(s, k) || QuoteAmong(s[k..], n))
  {
    assert s[..k + n] == s[..k] + s[k..][..n];
  }

  /**
   * `scan_heredoc_start`: the header's tag is appended to the stored tag,
   * a double quote anywhere in the scanned header allows interpolation (and nothing
   * clears that permission), and the scan succeeds in front of `)` iff the
   * tag is non-empty.
   */
  function ScanHeredocStart(s: seq<char>, st: State): (r: Scan)
    ensures r.symbol == Some(HeredocStart)
    ensures r.consumed <= |s|
    ensures r.consumed < |s| ==> !IsHeaderChar(s[r.consumed])
    ensures r.accepted <==> r.consumed < |s| && s[r.consumed] == ')' && |r.state.heredocTag| > 0
    ensures r.consumed < |s| && s[r.consumed] != ')' ==> r.state.heredocTag == []
    ensures r.state.heredocTag == [] || r.state.heredocTag == st.heredocTag + TagChars(s, r.consumed)
    ensures r.consumed == |s| || (r.consumed < |s| && s[r.consumed] == ')') ==> r.state.heredocTag == st.heredocTag + TagChars(s, r.consumed)
    ensures r.state.heredocTag == [] || ExtendsWithAlnums(st.heredocTag, r.state.heredocTag)
    ensures r.state.interpolationAllowed == (st.interpolationAllowed || QuoteAmong(s, r.consumed))
    ensures r.state.checkSelbrace == st.checkSelbrace
  {
    HeredocStartStops(s, st);
    HeredocStartTag(s, st);
    HeredocStartInterpolation(s, st);
    ExtendsByTagChars(st.heredocTag, s, HeredocStartLoop(s, st).consumed);
    HeredocStartLoop(s, st)
  }

  /** A heredoc header as written between `@(` and `)`. */
  datatype Header = Header(tag: seq<char>, quoted: bool, syntax: Option<seq<char>>, escapes: Option<seq<char>>)

  /** The header's text: the tag (in double quotes when quoted), then `:syntax`, then `/escapes`. */
  function RenderHeader(h: Header): seq<char> {
    (if h.quoted then [DoubleQuote] + h.tag + [DoubleQuote] else h.tag) + HeaderFlags(h)
  }

  /** A header the scanner is meant to read: an alphanumeric tag, an alphanumeric syntax name, alphabetic escape flags. */
  predicate ValidHeader(h: Header) {
    && |h.tag| > 0
    && (forall j :: 0 <= j < |h.tag| ==> IsAlnum(h.tag[j]))
    && (h.syntax.Some? ==> forall j :: 0 <= j < |h.syntax.value| ==> IsAlnum(h.syntax.value[j]))
    && (h.escapes.Some? ==> forall j :: 0 <= j < |h.escapes.value| ==> IsAlpha(h.escapes.value[j]))
  }

  /** A run of flag characters ends where the first other character starts. */
  lemma {:induction false} RunLengthOf(w: seq<char>, t: seq<char>, syntax: bool)
    requires forall j :: 0 <= j < |w| ==> FlagChar(syntax, w[j])
    requires |t| == 0 || !FlagChar(syntax, t[0])
    ensures RunLength(w + t, syntax) == |w|
    decreases |w|
  {
    if |w| == 0 {
      assert w + t == t;
    } else {
      assert (w + t)[1..] == w[1..] + t;
      RunLengthOf(w[1..], t, syntax);
    }
  }

  /** The header loop appends an alphanumeric run to the tag. */
  lemma {:induction false} StartLoopTag(w: seq<char>, t: seq<char>, st: State)
    requires forall j :: 0 <= j < |w| ==> IsAlnum(w[j])
    ensures HeredocStartLoop(w + t, st) == Advance(|w|, HeredocStartLoop(t, st.(heredocTag := st.heredocTag + w)))
    decreases |w|
  {
    if |w| == 0 {
      assert w + t == t;
      assert st.heredocTag + w == st.heredocTag;
    } else {
      var st1 := st.(heredocTag := st.heredocTag + [w[0]]);
      assert (w + t)[0] == w[0];
      assert (w + t)[1..] == w[1..] + t;
      StartLoopTag(w[1..], t, st1);
      assert st1.heredocTag + w[1..] == st.heredocTag + w;
    }
  }

  /** The header loop passes over `:syntax` and `/escapes` without touching the state. */
  lemma StartLoopFlags(c: char, w: seq<char>, t: seq<char>, st: State)
    requires c == ':' || c == '/'
    requires forall j :: 0 <= j < |w| ==> (if c == ':' then IsAlnum(w[j]) else IsAlpha(w[j]))
    requires |t| == 0 || !(if c == ':' then IsAlnum(t[0]) else IsAlpha(t[0]))
    ensures HeredocStartLoop([c] + w + t, st) == Advance(1 + |w|, HeredocStartLoop(t, st))
  {
    var s := [c] + w + t;
    assert s[1..] == w + t;
    RunLengthOf(w, t, c == ':');
    assert s[1 + |w|..] == t;
  }

  /** The part of a header after its tag. */
  function HeaderFlags(h: Header): seq<char> {
    SyntaxText(h) + EscapesText(h)
  }

  function SyntaxText(h: Header): seq<char> {
    if h.syntax.Some? then [':'] + h.syntax.value else []
  }

  function EscapesText(h: Header): seq<char> {
    if h.escapes.Some? then ['/'] + h.escapes.value else []
  }

  /** The header loop passes over the rendered flags and stops, successfully, in front of `)`. */
  lemma StartLoopFlagsClose(h: Header, rest: seq<char>, st: State)
    requires ValidHeader(h) && |st.heredocTag| > 0
    ensures HeredocStartLoop(HeaderFlags(h) + [')'] + rest, st) == Scan(true, |HeaderFlags(h)|, Some(HeredocStart), st)
  {
    var close := [')'] + rest;
    FlagsText(h, rest);
    StartLoopEscapesClose(h, close, st);
    StartLoopSyntax(h, EscapesText(h) + close, st);
  }

  /** The flags before `)`, split at the escape flags. */
  lemma FlagsText(h: Header, rest: seq<char>)
    ensures HeaderFlags(h) + [')'] + rest == SyntaxText(h) + (EscapesText(h) + ([')'] + rest))
  {
  }

  /** The header loop passes over the escape flags and stops, successfully, in front of `)`. */
  lemma StartLoopEscapesClose(h: Header, close: seq<char>, st: State)
    requires ValidHeader(h) && |st.heredocTag| > 0 && |close| > 0 && close[0] == ')'
    ensures HeredocStartLoop(EscapesText(h) + close, st) == Scan(true, |EscapesText(h)|, Some(HeredocStart), st)
  {
    assert HeredocStartLoop(close, st) == Scan(true, 0, Some(HeredocStart), st);
    if h.escapes.Some? {
      StartLoopFlags('/', h.escapes.value, close, st);
    } else {
      assert EscapesText(h) + close == close;
    }
  }

  /** The header loop passes over the syntax name, in front of the escape flags or `)`. */
  lemma StartLoopSyntax(h: Header, t: seq<char>, st: State)
    requires ValidHeader(h) && |t| > 0 && (t[0] == '/' || t[0] == ')')
    ensures HeredocStartLoop(SyntaxText(h) + t, st) == Advance(|SyntaxText(h)|, HeredocStartLoop(t, st))
  {
    if h.syntax.Some? {
      StartLoopFlags(':', h.syntax.value, t, st);
    } else {
      assert SyntaxText(h) + t == t;
    }
  }

  /** The header loop over an unquoted tag followed by its flags. */
  lemma StartLoopPlainTag(h: Header, rest: seq<char>, st: State)
    requires ValidHeader(h) && !h.quoted
    ensures HeredocStartLoop(RenderHeader(h) + [')'] + rest, st)
      == Scan(true, |RenderHeader(h)|, Some(HeredocStart), st.(heredocTag := st.heredocTag + h.tag))
  {
    var flags := HeaderFlags(h) + [')'] + rest;
    var st2 := st.(heredocTag := st.heredocTag + h.tag);
    StartLoopFlagsClose(h, rest, st2);
    StartLoopTag(h.tag, flags, st);
    PlainHeaderText(h, rest);
  }

  /** An unquoted header is its tag followed by its flags. */
  lemma PlainHeaderText(h: Header, rest: seq<char>)
    requires !h.quoted
    ensures RenderHeader(h) + [')'] + rest == h.tag + (HeaderFlags(h) + [')'] + rest)
  {
  }

  /** The header loop over a double-quoted tag followed by its flags. */
  lemma StartLoopQuotedTag(h: Header, rest: seq<char>, st: State)
    requires ValidHeader(h) && h.quoted
    ensures HeredocStartLoop(RenderHeader(h) + [')'] + rest, st)
      == Scan(true, |RenderHeader(h)|, Some(HeredocStart),
              st.(heredocTag := st.heredocTag + h.tag, interpolationAllowed := true))
  {
    var flags := HeaderFlags(h) + [')'] + rest;
    var st1 := st.(interpolationAllowed := true);
    var st2 := st1.(heredocTag := st.heredocTag + h.tag);
    var afterTag := [DoubleQuote] + flags;
    StartLoopFlagsClose(h, rest, st2);
    StartLoopQuote(flags, st2);
    StartLoopTag(h.tag, afterTag, st1);
    StartLoopQuote(h.tag + afterTag, st);
    QuotedHeaderText(h, rest);
  }

  /** A quoted header is a quote, its tag, a quote, then its flags. */
  lemma QuotedHeaderText(h: Header, rest: seq<char>)
    requires h.quoted
    ensures RenderHeader(h) + [')'] + rest == [DoubleQuote] + (h.tag + ([DoubleQuote] + (HeaderFlags(h) + [')'] + rest)))
  {
  }

  /** A double quote in the header allows interpolation. */
  lemma StartLoopQuote(t: seq<char>, st: State)
    ensures HeredocStartLoop([DoubleQuote] + t, st) == Advance(1, HeredocStartLoop(t, st.(interpolationAllowed := true)))
  {
    assert ([DoubleQuote] + t)[1..] == t;
  }

  /**
   * Reading a rendered header back: the scan stops in front of the closing
   * `)`, succeeds, appends exactly the header's tag to the stored tag, and
   * allows interpolation iff the tag was quoted (or it already was allowed).
   */
  lemma HeaderRoundTrip(h: Header, rest: seq<char>, st: State)
    requires ValidHeader(h)
    ensures ScanHeredocStart(RenderHeader(h) + [')'] + rest, st)
      == Scan(true, |RenderHeader(h)|, Some(HeredocStart),
              st.(heredocTag := st.heredocTag + h.tag, interpolationAllowed := st.interpolationAllowed || h.quoted))
  {
    if h.quoted {
      StartLoopQuotedTag(h, rest, st);
    } else {
      StartLoopPlainTag(h, rest, st);
    }
  }

  /**
   * Where the end-tag comparison for position `p` starts: just after the last newline before `p`,
   * or 0, the position where the body scan started, since the match state is reset on every call.
   */
  function LineStart(s: seq<char>, p: nat): (b: nat)
    requires p <= |s|
    ensures b <= p
    ensures b == 0 || s[b - 1] == '\n'
    ensures forall j :: b <= j < p ==> s[j] != '\n'
    decreases p
  {
    if p == 0 || s[p - 1] == '\n' then p else LineStart(s, p - 1)
  }

  /** The alphanumeric characters of `w`, in order. */
  function Alnums(w: seq<char>): (a: seq<char>)
    ensures |a| <= |w|
    decreases |w|
  {
    if |w| == 0 then []
    else Alnums(w[..|w| - 1]) + (if IsAlnum(w[|w| - 1]) then [w[|w| - 1]] else [])
  }

  /** The text since the last reset before position `p` spells the tag in its alphanumeric characters. */
  predicate LineMatches(s: seq<char>, p: nat, tag: seq<char>)
    requires p <= |s|
  {
    Alnums(s[LineStart(s, p)..p]) == tag
  }

  /**
   * Where a body scan must stop: a backslash, a `$` when interpolation is
   * allowed, or a newline where the text since the last reset spells the tag.
   */
  predicate BodyStop(s: seq<char>, p: nat, st: State)
    requires p < |s|
  {
    s[p] == '\\' || (s[p] == '$' && st.interpolationAllowed) || (s[p] == '\n' && LineMatches(s, p, st.heredocTag))
  }

  /** No stop position lies in `[k, n)`. */
  predicate NoStopBetween(s: seq<char>, k: nat, n: nat, st: State)
    requires k <= n <= |s|
  {
    forall j :: k <= j < n ==> !BodyStop(s, j, st)
  }

  /** A position that is no stop extends a stop-free range to its left. */
  lemma NoStopExtend(s: seq<char>, k: nat, n: nat, st: State)
    requires k < n <= |s|
    requires !BodyStop(s, k, st) && NoStopBetween(s, k + 1, n, st)
    ensures NoStopBetween(s, k, n, st)
  {
  }

  /**
   * The meaning of the body loop's `match_valid` and `match_index` for the
   * current line: valid iff the line's alphanumerics are a prefix of the
   * tag, and then the index counts them.
   */
  predicate MatchState(line: seq<char>, tag: seq<char>, valid: bool, index: nat) {
    Tracks(Alnums(line), tag, valid, index)
  }

  /** `valid` says whether `seen` is a prefix of `tag`, and then `index` is its length. */
  predicate Tracks(seen: seq<char>, tag: seq<char>, valid: bool, index: nat) {
    (valid <==> seen <= tag) && (valid ==> index == |seen|)
  }

  /** The tag comparison at the end of a line decides whether the line spells the tag. */
  lemma TracksAtEnd(seen: seq<char>, tag: seq<char>, valid: bool, index: nat)
    requires Tracks(seen, tag, valid, index)
    ensures valid && index == |tag| <==> seen == tag
  {
  }

  /**
   * The body loop's update of `match_valid` and `match_index` for one
   * ordinary character: an alphanumeric either extends the match or
   * invalidates the line; anything else leaves both alone.
   */
  function MatchNext(tag: seq<char>, valid: bool, index: nat, c: char): (bool, nat) {
    if valid && IsAlnum(c) then
      if |tag| > index && tag[index] == c then (true, index + 1) else (false, index)
    else (valid, index)
  }

  /** The update keeps `valid` and `index` tracking the line's alphanumerics. */
  lemma MatchNextTracks(seen: seq<char>, tag: seq<char>, valid: bool, index: nat, c: char)
    requires Tracks(seen, tag, valid, index)
    ensures var m := MatchNext(tag, valid, index, c);
      Tracks(seen + (if IsAlnum(c) then [c] else []), tag, m.0, m.1)
  {
  }

  /** One ordinary character keeps the line-matching invariant. */
  lemma BodyStep(s: seq<char>, k: nat, st: State, valid: bool, index: nat)
    requires k < |s| && s[k] != '\n'
    requires MatchState(s[LineStart(s, k)..k], st.heredocTag, valid, index)
    ensures var m := MatchNext(st.heredocTag, valid, index, s[k]);
      MatchState(s[LineStart(s, k + 1)..k + 1], st.heredocTag, m.0, m.1)
  {
    LineGrows(s, k);
    MatchNextTracks(Alnums(s[LineStart(s, k)..k]), st.heredocTag, valid, index, s[k]);
  }

  /**
   * The loop of `scan_heredoc_body` at absolute position `k`, with the
   * line-matching variables `valid` (`match_valid`) and `index`
   * (`match_index`).
   */
  function BodyLoop(s: seq<char>, k: nat, st: State, valid: bool, index: nat): (r: Scan)
    requires k <= |s|
    ensures k <= r.consumed <= |s|
    ensures r.consumed < |s| ==> r.accepted
    ensures r.accepted ==> r.symbol == (if r.consumed == |s| || (r.consumed < |s| && s[r.consumed] == '\n') then Some(HeredocEnd) else Some(HeredocBody))
    ensures !r.accepted ==> r.symbol == None
    ensures r.state == (if r.symbol == Some(HeredocEnd) then st.(heredocTag := []) else st)
    decreases |s| - k
  {
    if k == |s| then
      if valid && |st.heredocTag| == index then Scan(true, k, Some(HeredocEnd), st.(heredocTag := []))
      else Scan(false, k, None, st)
    else if s[k] == '\n' then
      if valid && |st.heredocTag| == index then Scan(true, k, Some(HeredocEnd), st.(heredocTag := []))
      else BodyLoop(s, k + 1, st, true, 0)
    else if s[k] == '$' then
      if st.interpolationAllowed then Scan(true, k, Some(HeredocBody), st)
      else BodyLoop(s, k + 1, st, valid, index)
    else if s[k] == '\\' then Scan(true, k, Some(HeredocBody), st)
    else
      var m := MatchNext(st.heredocTag, valid, index, s[k]);
      BodyLoop(s, k + 1, st, m.0, m.1)
  }

  /** One more character on a line: its alphanumerics grow by that character if it is one. */
  lemma LineGrows(s: seq<char>, k: nat)
    requires k < |s| && s[k] != '\n'
    ensures LineStart(s, k + 1) == LineStart(s, k)
    ensures Alnums(s[LineStart(s, k)..k + 1]) == Alnums(s[LineStart(s, k)..k]) + (if IsAlnum(s[k]) then [s[k]] else [])
  {
    var b := LineStart(s, k);
    assert s[b..k + 1][..k - b] == s[b..k];
  }

  /** What the body loop promises from position `k` on. */
  predicate BodyLoopMeets(s: seq<char>, k: nat, st: State, r: Scan)
    requires k <= r.consumed <= |s|
  {
    && NoStopBetween(s, k, r.consumed, st)
    && (r.consumed < |s| ==> BodyStop(s, r.consumed, st))
    && (r.consumed == |s| ==> (r.accepted <==> LineMatches(s, |s|, st.heredocTag)))
  }

  /**
   * The body loop stops exactly at the first stop position at or after
   * `k`, and at the end of input it succeeds iff the last line spells the tag.
   */
  lemma {:induction false} BodyLoopStops(s: seq<char>, k: nat, st: State, valid: bool, index: nat)
    requires k <= |s|
    requires MatchState(s[LineStart(s, k)..k], st.heredocTag, valid, index)
    ensures BodyLoopMeets(s, k, st, BodyLoop(s, k, st, valid, index))
    decreases |s| - k, 1
  {
    TracksAtEnd(Alnums(s[LineStart(s, k)..k]), st.heredocTag, valid, index);
    if k < |s| {
      if s[k] == '\n' {
        if !(valid && |st.heredocTag| == index) {
          BodyLoopStopsNewline(s, k, st, valid, index);
        }
      } else if !(s[k] == '\\' || (s[k] == '$' && st.interpolationAllowed)) {
        BodyLoopStopsOrdinary(s, k, st, valid, index);
      }
    }
  }

  /** A newline ending a line that does not spell the tag starts a fresh line. */
  lemma {:induction false} BodyLoopStopsNewline(s: seq<char>, k: nat, st: State, valid: bool, index: nat)
    requires k < |s| && s[k] == '\n'
    requires MatchState(s[LineStart(s, k)..k], st.heredocTag, valid, index)
    requires !(valid && |st.heredocTag| == index)
    ensures BodyLoopMeets(s, k, st, BodyLoop(s, k, st, valid, index))
    decreases |s| - k, 0
  {
    TracksAtEnd(Alnums(s[LineStart(s, k)..k]), st.heredocTag, valid, index);
    assert !BodyStop(s, k, st);
    assert s[LineStart(s, k + 1)..k + 1] == [];
    assert BodyLoop(s, k, st, valid, index) == BodyLoop(s, k + 1, st, true, 0);
    BodyLoopStops(s, k + 1, st, true, 0);
    NoStopExtend(s, k, BodyLoop(s, k, st, valid, index).consumed, st);
  }

  /** An ordinary character is body text and updates the line matching. */
  lemma {:induction false} BodyLoopStopsOrdinary(s: seq<char>, k: nat, st: State, valid: bool, index: nat)
    requires k < |s| && s[k] != '\n' && s[k] != '\\' && !(s[k] == '$' && st.interpolationAllowed)
    requires MatchState(s[LineStart(s, k)..k], st.heredocTag, valid, index)
    ensures BodyLoopMeets(s, k, st, BodyLoop(s, k, st, valid, index))
    decreases |s| - k, 0
  {
    assert !BodyStop(s, k, st);
    var m := MatchNext(st.heredocTag, valid, index, s[k]);
    assert s[k] == '$' ==> m == (valid, index);
    BodyStep(s, k, st, valid, index);
    assert BodyLoop(s, k, st, valid, index) == BodyLoop(s, k + 1, st, m.0, m.1);
    BodyLoopStops(s, k + 1, st, m.0, m.1);
    NoStopExtend(s, k, BodyLoop(s, k, st, valid, index).consumed, st);
  }

  /**
   * `scan_heredoc_body`. It stops at the first backslash, at the first `$`
   * when interpolation is allowed, or at the first newline (or the end of
   * input) that ends a line whose alphanumeric characters spell the tag;
   * other characters, including a `$` without interpolation, are body text.
   * A tag line yields HEREDOC_END and clears the tag but not the
   * interpolation permission; a backslash or `$` yields HEREDOC_BODY; the end
   * of input without a tag line fails.
   */
  function ScanHeredocBody(s: seq<char>, st: State): (r: Scan)
    ensures r.consumed <= |s|
    ensures forall j :: 0 <= j < r.consumed ==> !BodyStop(s, j, st)
    ensures r.consumed < |s| ==> BodyStop(s, r.consumed, st) && r.accepted
    ensures r.consumed == |s| ==> (r.accepted <==> LineMatches(s, |s|, st.heredocTag))
    ensures r.accepted ==> r.symbol == (if r.consumed == |s| || (r.consumed < |s| && s[r.consumed] == '\n') then Some(HeredocEnd) else Some(HeredocBody))
    ensures !r.accepted ==> r.symbol == None
    ensures r.state == (if r.symbol == Some(HeredocEnd) then st.(heredocTag := []) else st)
  {
    assert s[LineStart(s, 0)..0] == [];
    BodyLoopStops(s, 0, st, true, 0);
    BodyLoop(s, 0, st, true, 0)
  }

  /**
   * The end-tag comparison starts afresh at every call, not at the start of
   * the line: input without a newline, backslash or `$` whose alphanumerics
   * spell the tag closes the heredoc, whatever came before it on its line.
   */
  lemma RestOfLineCloses(s: seq<char>, st: State)
    requires forall j :: 0 <= j < |s| ==> s[j] != '\n' && s[j] != '\\' && s[j] != '$'
    requires Alnums(s) == st.heredocTag
    ensures ScanHeredocBody(s, st) == Scan(true, |s|, Some(HeredocEnd), st.(heredocTag := []))
  {
    var r := ScanHeredocBody(s, st);
    assert forall j :: 0 <= j < |s| ==> !BodyStop(s, j, st);
    assert LineStart(s, |s|) == 0;
    assert s[0..|s|] == s;
  }
}
