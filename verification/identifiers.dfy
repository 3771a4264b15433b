/**
 * The grammar's identifier tokens `name`, `classref`, `word` and
 * `_variable_name`, and its keyword list.
 *
 * Each identifier regex describes an optional leading `::` followed by
 * `::`-separated segments of one shape:
 *   name           `((::)?[a-z]\w*)(::[a-z]\w*)*`      segments `[a-z]\w*`
 *   classref       `((::){0,1}[A-Z]\w*)+`               segments `[A-Z]\w*`
 *   word           `((?:::){0,1}(?:[a-z_](?:[\w-]*\w)?))+`  segments `[a-z_]([\w-]*\w)?`
 *   _variable_name `(::)?(\w+::)*\w+`                   segments `\w+`
 * For `classref` and `word` the repeated group may also follow itself with
 * no `::` between; two such units written together form one longer unit of
 * the same shape, so the languages are the same.
 */
module Identifiers {
  import opened Wrappers
  import opened Chars

  datatype PathKind = Name | Classref | Word | VariableName

  predicate AllWordChars(w: string) {
    forall i :: 0 <= i < |w| ==> IsWordChar(w[i])
  }

  /** The shape of one `::`-separated segment. */
  predicate SegmentOk(k: PathKind, w: string) {
    |w| > 0 &&
    match k
    case Name => IsLower(w[0]) && AllWordChars(w)
    case Classref => IsUpper(w[0]) && AllWordChars(w)
    case VariableName => AllWordChars(w)
    case Word =>
      && (IsLower(w[0]) || w[0] == '_') && IsWordChar(w[|w| - 1])
      && forall i :: 0 <= i < |w| ==> IsWordChar(w[i]) || w[i] == '-'
  }

  /** An identifier: whether it starts with `::`, and its segments. */
  datatype Path = Path(rooted: bool, segments: seq<string>)

  predicate ValidPath(k: PathKind, p: Path) {
    |p.segments| > 0 && forall i :: 0 <= i < |p.segments| ==> SegmentOk(k, p.segments[i])
  }

  /** The segments with `::` between them. */
  function Join(segs: seq<string>): string
    decreases |segs|
  {
    if |segs| == 0 then []
    else if |segs| == 1 then segs[0]
    else segs[0] + "::" + Join(segs[1..])
  }

  /** How an identifier is written. */
  function Render(p: Path): string {
    (if p.rooted then "::" else "") + Join(p.segments)
  }

  predicate ColonFree(w: string) {
    forall i :: 0 <= i < |w| ==> w[i] != ':'
  }

  /** The position of the first `:`, or the length when there is none. */
  function ColonIndex(t: string): (i: nat)
    ensures i <= |t| && ColonFree(t[..i])
    ensures i < |t| ==> t[i] == ':'
  {
    if |t| == 0 then 0
    else if t[0] == ':' then 0
    else
      var j := ColonIndex(t[1..]);
      assert t[..1 + j] == [t[0]] + t[1..][..j];
      1 + j
  }

  /**
   * Cuts `t` at every `::` into colon-free pieces; a `:` that is not part
   * of a `::` pair fails the cut.
   */
  function Split(t: string): (r: Option<seq<string>>)
    ensures r.Some? ==> |r.value| > 0 && Join(r.value) == t
    ensures r.Some? ==> forall i :: 0 <= i < |r.value| ==> ColonFree(r.value[i])
    decreases |t|
  {
    var i := ColonIndex(t);
    if i == |t| then
      assert t[..i] == t;
      Some([t])
    else if i + 1 < |t| && t[i + 1] == ':' then
      match Split(t[i + 2..])
      case None => None
      case Some(rest) =>
        assert t == t[..i] + "::" + t[i + 2..];
        Some([t[..i]] + rest)
    else None
  }

  /** Recognises an identifier of kind `k`: the whole of `s` must match. */
  function Recognise(k: PathKind, s: string): (r: Option<Path>)
    ensures r.Some? ==> ValidPath(k, r.value) && Render(r.value) == s
  {
    var rooted := |s| >= 2 && s[0] == ':' && s[1] == ':';
    var t := if rooted then s[2..] else s;
    assert s == (if rooted then "::" else "") + t;
    match Split(t)
    case None => None
    case Some(segs) =>
      if forall i :: 0 <= i < |segs| ==> SegmentOk(k, segs[i]) then Some(Path(rooted, segs)) else None
  }

  predicate Matches(k: PathKind, s: string) {
    Recognise(k, s).Some?
  }

  lemma SegmentColonFree(k: PathKind, w: string)
    requires SegmentOk(k, w)
    ensures ColonFree(w) && w[0] != ':'
  {
  }

  /** Cutting joined colon-free segments gives the segments back. */
  lemma {:induction false} SplitJoin(segs: seq<string>)
    requires |segs| > 0 && forall i :: 0 <= i < |segs| ==> ColonFree(segs[i])
    ensures Split(Join(segs)) == Some(segs)
    decreases |segs|
  {
    var w := segs[0];
    if |segs| == 1 {
      SplitSingle(w);
      assert segs == [w];
    } else {
      var tail := Join(segs[1..]);
      assert Join(segs) == w + ("::" + tail);
      SplitJoin(segs[1..]);
      SplitStep(w, tail, segs[1..]);
      assert [w] + segs[1..] == segs;
    }
  }

  /** A colon-free piece is cut into itself. */
  lemma SplitSingle(w: string)
    requires ColonFree(w)
    ensures Split(w) == Some([w])
  {
    ColonIndexOf(w, []);
    assert w + [] == w;
    assert w[..|w|] == w;
  }

  /** A colon-free piece, `::`, then text that is cut into `rest`: the piece is cut off first. */
  lemma SplitStep(w: string, tail: string, rest: seq<string>)
    requires ColonFree(w) && Split(tail) == Some(rest)
    ensures Split(w + ("::" + tail)) == Some([w] + rest)
  {
    var t := w + ("::" + tail);
    ColonIndexOf(w, "::" + tail);
    assert t[..|w|] == w;
    assert t[|w| + 2..] == tail;
  }

  /** The first colon of `w + t`, for colon-free `w`, is the first colon of `t`. */
  lemma {:induction false} ColonIndexOf(w: string, t: string)
    requires ColonFree(w)
    requires |t| == 0 || t[0] == ':'
    ensures ColonIndex(w + t) == |w|
    decreases |w|
  {
    if |w| > 0 {
      assert (w + t)[1..] == w[1..] + t;
      ColonIndexOf(w[1..], t);
    } else {
      assert w + t == t;
    }
  }

  /** A valid identifier, written out, is recognised as itself. */
  lemma RoundTrip(k: PathKind, p: Path)
    requires ValidPath(k, p)
    ensures Recognise(k, Render(p)) == Some(p)
  {
    forall i | 0 <= i < |p.segments| ensures ColonFree(p.segments[i]) {
      SegmentColonFree(k, p.segments[i]);
    }
    SegmentColonFree(k, p.segments[0]);
    JoinHead(p.segments);
    SplitJoin(p.segments);
    RootPrefix(p.rooted, Join(p.segments));
  }

  /** Joined segments start with the first segment's first character. */
  lemma JoinHead(segs: seq<string>)
    requires |segs| > 0 && |segs[0]| > 0
    ensures |Join(segs)| > 0 && Join(segs)[0] == segs[0][0]
  {
    if |segs| > 1 {
      assert Join(segs) == segs[0] + ("::" + Join(segs[1..]));
    }
  }

  /** Reading the optional `::` back off a written identifier whose joined segments do not start with `:`. */
  lemma RootPrefix(rooted: bool, j: string)
    requires |j| > 0 && j[0] != ':'
    ensures var s := (if rooted then "::" else "") + j;
      && rooted == (|s| >= 2 && s[0] == ':' && s[1] == ':')
      && j == (if rooted then s[2..] else s)
  {
    if rooted {
      assert ("::" + j)[2..] == j;
    } else {
      assert "" + j == j;
    }
  }

  /** The recognised language is exactly the written valid identifiers. */
  lemma MatchesIff(k: PathKind, s: string)
    ensures Matches(k, s) <==> exists p :: ValidPath(k, p) && Render(p) == s
  {
    if exists p :: ValidPath(k, p) && Render(p) == s {
      var p :| ValidPath(k, p) && Render(p) == s;
      RoundTrip(k, p);
    }
  }

  /** Every segment of one kind is a segment of another. */
  ghost predicate Narrower(k1: PathKind, k2: PathKind) {
    forall w :: SegmentOk(k1, w) ==> SegmentOk(k2, w)
  }

  /** An identifier of a narrower kind is also one of the wider kind. */
  lemma Widen(k1: PathKind, k2: PathKind, s: string)
    requires Narrower(k1, k2) && Matches(k1, s)
    ensures Matches(k2, s)
  {
    var p := Recognise(k1, s).value;
    RoundTrip(k2, p);
  }

  /**
   * Every name is a word and a variable name; every class reference is a
   * variable name.
   */
  lemma Inclusions(s: string)
    ensures Matches(Name, s) ==> Matches(Word, s) && Matches(VariableName, s)
    ensures Matches(Classref, s) ==> Matches(VariableName, s)
  {
    assert Narrower(Name, Word);
    assert Narrower(Name, VariableName);
    assert Narrower(Classref, VariableName);
    if Matches(Name, s) {
      Widen(Name, Word, s);
      Widen(Name, VariableName, s);
    }
    if Matches(Classref, s) {
      Widen(Classref, VariableName, s);
    }
  }

  /** A class reference starts (after any `::`) with a capital, a name or word never does. */
  lemma ClassrefDisjoint(s: string)
    ensures !(Matches(Classref, s) && Matches(Name, s))
    ensures !(Matches(Classref, s) && Matches(Word, s))
  {
    if Matches(Classref, s) && (Matches(Name, s) || Matches(Word, s)) {
      var p := Recognise(Classref, s).value;
      var q := if Matches(Name, s) then Recognise(Name, s).value else Recognise(Word, s).value;
      FirstSegmentChar(p, q);
    }
  }

  /** Where the first segment's first character sits in a written identifier. */
  lemma RenderHead(p: Path)
    requires |p.segments| > 0 && |p.segments[0]| > 0 && p.segments[0][0] != ':'
    ensures var r := Render(p);
      && (p.rooted ==> |r| > 2 && r[0] == ':' && r[2] == p.segments[0][0])
      && (!p.rooted ==> |r| > 0 && r[0] == p.segments[0][0])
  {
    JoinHead(p.segments);
  }

  /** Two written identifiers that are equal start their first segments with the same character. */
  lemma FirstSegmentChar(p: Path, q: Path)
    requires |p.segments| > 0 && |q.segments| > 0
    requires |p.segments[0]| > 0 && |q.segments[0]| > 0
    requires p.segments[0][0] != ':' && q.segments[0][0] != ':'
    requires Render(p) == Render(q)
    ensures p.segments[0][0] == q.segments[0][0]
  {
    RenderHead(p);
    RenderHead(q);
  }

  /** The `keyword` rule's alternatives, in the grammar's order. */
  function Keywords(): (ks: seq<string>)
    ensures |ks| == 20
    ensures forall i :: 0 <= i < |ks| ==> AllLower(ks[i])
  {
    ["and", "case", "class", "default", "define", "else", "elsif", "if", "in",
     "inherits", "node", "or", "undef", "unless", "type", "attr", "function",
     "private", "plan", "apply"]
  }

  /** The `reserved_word` rule's alternatives. */
  function ReservedWords(): (rs: seq<string>)
    ensures forall i :: 0 <= i < |rs| ==> rs[i] in Keywords()
  {
    ["private", "attr"]
  }

  predicate AllLower(w: string) {
    |w| > 0 && forall i :: 0 <= i < |w| ==> IsLower(w[i])
  }

  /** A run of lower-case letters is a one-segment name, word and variable name. */
  lemma LowerIsName(w: string)
    requires AllLower(w)
    ensures Recognise(Name, w) == Some(Path(false, [w]))
    ensures Matches(Word, w) && Matches(VariableName, w)
  {
    var p := Path(false, [w]);
    assert Render(p) == w;
    assert ValidPath(Name, p);
    RoundTrip(Name, p);
    Inclusions(w);
  }

  /** Every keyword is also a name, so a keyword's spelling alone cannot tell the two apart. */
  lemma KeywordsAreNames(i: nat)
    requires i < |Keywords()|
    ensures Matches(Name, Keywords()[i]) && !Matches(Classref, Keywords()[i])
  {
    LowerIsName(Keywords()[i]);
    ClassrefDisjoint(Keywords()[i]);
  }

  /**
   * The name a `$name` interpolation takes (lower-case letters, digits and
   * underscores) is a one-segment variable name; the converse fails: `Foo`
   * is a variable name the interpolation scan does not take.
   */
  lemma InterpolatedNameIsVariableName(w: string)
    requires |w| > 0 && forall i :: 0 <= i < |w| ==> IsVariableNameChar(w[i])
    ensures Recognise(VariableName, w) == Some(Path(false, [w]))
    ensures Matches(VariableName, "Foo") && !IsVariableNameChar("Foo"[0])
  {
    var p := Path(false, [w]);
    assert Render(p) == w;
    assert ValidPath(VariableName, p);
    RoundTrip(VariableName, p);
    var f := Path(false, ["Foo"]);
    assert Render(f) == "Foo";
    assert ValidPath(VariableName, f);
    RoundTrip(VariableName, f);
  }
}
