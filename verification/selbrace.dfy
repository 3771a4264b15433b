/**
 * `scan_selbrace`: the one-bit lookback that tells a selector's opening
 * brace (a `{` right after a `?`) from every other brace.
 */
module SelectorBrace {
  import opened Wrappers
  import opened Chars
  import opened ScannerState

  /** The number of leading whitespace characters of `s`. */
  function LeadingSpace(s: seq<char>): (k: nat)
    ensures k <= |s|
    ensures forall j :: 0 <= j < k ==> IsSpace(s[j])
    ensures k < |s| ==> !IsSpace(s[k])
    decreases |s|
  {
    if |s| == 0 || !IsSpace(s[0]) then 0 else 1 + LeadingSpace(s[1..])
  }

  /**
   * `scan_selbrace`. After skipping whitespace: `?` is QMARK and arms the
   * flag; `{` is SELBRACE only while the flag is armed, and disarms it; a `{`
   * without the flag fails and leaves the state alone; any other character
   * disarms the flag and fails. The end of input fails and changes nothing.
   * Nothing but the flag is ever touched.
   */
  function ScanSelbrace(s: seq<char>, st: State): (r: Scan)
    ensures var k := LeadingSpace(s);
      && r.consumed == (if r.accepted then k + 1 else k)
      && (r.accepted <==> k < |s| && (s[k] == '?' || (s[k] == '{' && st.checkSelbrace)))
      && (k < |s| && s[k] == '?' ==> r.symbol == Some(Qmark) && r.state == st.(checkSelbrace := true))
      && (k < |s| && s[k] == '{' && st.checkSelbrace ==> r.symbol == Some(Selbrace) && r.state == st.(checkSelbrace := false))
      && (k < |s| && s[k] == '{' && !st.checkSelbrace ==> r.state == st)
      && (k < |s| && s[k] != '?' && s[k] != '{' ==> r.state == st.(checkSelbrace := false))
      && (k == |s| ==> r.state == st)
      && (!r.accepted ==> r.symbol == None)
    decreases |s|
  {
    if |s| == 0 then Scan(false, 0, None, st)
    else if IsSpace(s[0]) then
      var r := ScanSelbrace(s[1..], st);
      r.(consumed := r.consumed + 1)
    else if s[0] == '?' then Scan(true, 1, Some(Qmark), st.(checkSelbrace := true))
    else if s[0] == '{' then
      if st.checkSelbrace then Scan(true, 1, Some(Selbrace), st.(checkSelbrace := false))
      else Scan(false, 0, None, st)
    else Scan(false, 0, None, st.(checkSelbrace := false))
  }

  /**
   * The lookback at work: two consecutive selector-mode scans over
   * `? {`, with any whitespace around them, yield QMARK and then SELBRACE,
   * whatever the flag was before, and leave the flag disarmed.
   */
  lemma QmarkThenBrace(sp1: seq<char>, sp2: seq<char>, rest: seq<char>, st: State)
    requires forall j :: 0 <= j < |sp1| ==> IsSpace(sp1[j])
    requires forall j :: 0 <= j < |sp2| ==> IsSpace(sp2[j])
    ensures var s := sp1 + ['?'] + sp2 + ['{'] + rest;
      var r1 := ScanSelbrace(s, st);
      var r2 := ScanSelbrace(s[r1.consumed..], r1.state);
      && r1.accepted && r1.symbol == Some(Qmark) && r1.consumed == |sp1| + 1
      && r2.accepted && r2.symbol == Some(Selbrace) && r2.consumed == |sp2| + 1
      && r2.state == st.(checkSelbrace := false)
  {
    var s := sp1 + ['?'] + sp2 + ['{'] + rest;
    LeadingSpaceOf(sp1, ['?'] + sp2 + ['{'] + rest);
    assert s == sp1 + (['?'] + sp2 + ['{'] + rest);
    var t := s[|sp1| + 1..];
    assert t == sp2 + (['{'] + rest);
    LeadingSpaceOf(sp2, ['{'] + rest);
  }

  /** Whitespace followed by a non-space character is skipped exactly. */
  lemma {:induction false} LeadingSpaceOf(sp: seq<char>, t: seq<char>)
    requires forall j :: 0 <= j < |sp| ==> IsSpace(sp[j])
    requires |t| > 0 && !IsSpace(t[0])
    ensures LeadingSpace(sp + t) == |sp|
    decreases |sp|
  {
    if |sp| > 0 {
      assert (sp + t)[1..] == sp[1..] + t;
      LeadingSpaceOf(sp[1..], t);
    } else {
      assert sp + t == t;
    }
  }
}
