/**
 * The grammar's `number` token,
 * `(?:0[xX][0-9A-Fa-f]+|0?\d+(?:\.\d+)?(?:[eE]-?\d+)?)`: a hexadecimal
 * literal, or a decimal one with an optional fraction and an optional,
 * optionally negative, exponent. The optional leading `0` before `\d+`
 * adds nothing to the language, since `\d+` already admits a leading `0`.
 */
module Numbers {
  import opened Wrappers
  import opened Chars

  datatype Exponent = Exponent(upperE: bool, negative: bool, digits: string)

  datatype Number =
    | Hex(upperX: bool, digits: string)
    | Decimal(whole: string, fraction: Option<string>, exponent: Option<Exponent>)

  predicate AllDigits(w: string) {
    forall i :: 0 <= i < |w| ==> IsDigit(w[i])
  }

  predicate AllHexDigits(w: string) {
    forall i :: 0 <= i < |w| ==> IsHexDigit(w[i])
  }

  /** A non-empty run of decimal digits. */
  predicate DigitsOk(w: string) {
    |w| > 0 && AllDigits(w)
  }

  predicate ValidNumber(n: Number) {
    match n
    case Hex(_, d) => |d| > 0 && AllHexDigits(d)
    case Decimal(w, f, e) =>
      && DigitsOk(w)
      && (f.Some? ==> DigitsOk(f.value))
      && (e.Some? ==> DigitsOk(e.value.digits))
  }

  function RenderExponent(e: Exponent): string {
    (if e.upperE then "E" else "e") + (if e.negative then "-" else "") + e.digits
  }

  /** How a number is written. */
  function RenderNumber(n: Number): string {
    match n
    case Hex(x, d) => "0" + (if x then "X" else "x") + d
    case Decimal(w, f, e) => w + FractionText(f) + TailText(e)
  }

  function FractionText(f: Option<string>): string {
    if f.Some? then "." + f.value else ""
  }

  function TailText(e: Option<Exponent>): string {
    if e.Some? then RenderExponent(e.value) else ""
  }

  /** The length of the run of decimal digits `s` starts with. */
  function DigitRun(s: string): (n: nat)
    ensures n <= |s| && AllDigits(s[..n])
    ensures n < |s| ==> !IsDigit(s[n])
  {
    if |s| > 0 && IsDigit(s[0]) then
      var k := DigitRun(s[1..]);
      assert s[..1 + k] == [s[0]] + s[1..][..k];
      1 + k
    else 0
  }

  /** An exponent: `e` or `E`, an optional `-`, then digits to the end. */
  function RecogniseExponent(s: string): (r: Option<Exponent>)
    ensures r.Some? ==> DigitsOk(r.value.digits) && RenderExponent(r.value) == s
  {
    if |s| == 0 || (s[0] != 'e' && s[0] != 'E') then None
    else
      var neg := |s| > 1 && s[1] == '-';
      var d := if neg then s[2..] else s[1..];
      assert s == (if s[0] == 'E' then "E" else "e") + (if neg then "-" else "") + d;
      if DigitsOk(d) then Some(Exponent(s[0] == 'E', neg, d)) else None
  }

  /** What may follow the fraction: nothing, or an exponent. */
  function RecogniseTail(s: string): (r: Option<Option<Exponent>>)
    ensures r.Some? ==> (r.value.Some? ==> DigitsOk(r.value.value.digits))
    ensures r.Some? ==> s == TailText(r.value)
  {
    if |s| == 0 then Some(None)
    else match RecogniseExponent(s)
      case None => None
      case Some(e) => Some(Some(e))
  }

  /** An optional `.digits` fraction at the start of `s`, and what follows it. */
  function RecogniseFraction(s: string): (r: Option<(Option<string>, string)>)
    ensures r.Some? ==> (r.value.0.Some? ==> DigitsOk(r.value.0.value))
    ensures r.Some? ==> s == FractionText(r.value.0) + r.value.1
  {
    if |s| > 0 && s[0] == '.' then
      var j := DigitRun(s[1..]);
      if j == 0 then None
      else
        var f := s[1..][..j];
        assert s == "." + f + s[1..][j..];
        Some((Some(f), s[1..][j..]))
    else
      Some((None, s))
  }

  /** What follows the whole digits `w` of a decimal number: an optional fraction, then an optional exponent. */
  function DecimalAfter(w: string, rest: string): (r: Option<Number>)
    requires DigitsOk(w)
    ensures r.Some? ==> r.value.Decimal? && ValidNumber(r.value) && RenderNumber(r.value) == w + rest
  {
    match RecogniseFraction(rest)
    case None => None
    case Some((f, t)) =>
      match RecogniseTail(t)
      case None => None
      case Some(e) =>
        Assoc(w, FractionText(f), TailText(e));
        Some(Decimal(w, f, e))
  }

  lemma Assoc(a: string, b: string, c: string)
    ensures a + (b + c) == a + b + c
  {
  }

  /** A decimal number: digits, then an optional `.digits`, then an optional exponent. */
  function RecogniseDecimal(s: string): (r: Option<Number>)
    ensures r.Some? ==> r.value.Decimal? && ValidNumber(r.value) && RenderNumber(r.value) == s
  {
    var i := DigitRun(s);
    if i == 0 then None
    else
      assert s == s[..i] + s[i..];
      DecimalAfter(s[..i], s[i..])
  }

  /** Recognises a number: the whole of `s` must match. */
  function RecogniseNumber(s: string): (r: Option<Number>)
    ensures r.Some? ==> ValidNumber(r.value) && RenderNumber(r.value) == s
  {
    if |s| >= 2 && s[0] == '0' && (s[1] == 'x' || s[1] == 'X') then
      var d := s[2..];
      assert s == "0" + (if s[1] == 'X' then "X" else "x") + d;
      if |d| > 0 && AllHexDigits(d) then Some(Hex(s[1] == 'X', d)) else None
    else RecogniseDecimal(s)
  }

  /** A digit run stops where the digits do. */
  lemma {:induction false} DigitRunOf(w: string, t: string)
    requires AllDigits(w) && (|t| == 0 || !IsDigit(t[0]))
    ensures DigitRun(w + t) == |w|
    decreases |w|
  {
    if |w| > 0 {
      assert (w + t)[1..] == w[1..] + t;
      DigitRunOf(w[1..], t);
    } else {
      assert w + t == t;
    }
  }

  lemma ExponentRoundTrip(e: Exponent)
    requires DigitsOk(e.digits)
    ensures RecogniseExponent(RenderExponent(e)) == Some(e)
    ensures RecogniseTail(RenderExponent(e)) == Some(Some(e))
  {
    var s := RenderExponent(e);
    if e.negative {
      assert s[2..] == e.digits && s[1] == '-';
    } else {
      assert s[1..] == e.digits && s[1] != '-';
    }
  }

  /** The optional exponent, written out, is recognised as itself. */
  lemma TailRoundTrip(e: Option<Exponent>)
    requires e.Some? ==> DigitsOk(e.value.digits)
    ensures RecogniseTail(TailText(e)) == Some(e)
    ensures |TailText(e)| == 0 || TailText(e)[0] == 'e' || TailText(e)[0] == 'E'
  {
    if e.Some? {
      ExponentRoundTrip(e.value);
    }
  }

  /** The optional fraction, written out before a tail that starts with no digit, is recognised as itself. */
  lemma FractionRoundTrip(f: Option<string>, t: string)
    requires f.Some? ==> DigitsOk(f.value)
    requires |t| == 0 || t[0] == 'e' || t[0] == 'E'
    ensures RecogniseFraction(FractionText(f) + t) == Some((f, t))
  {
    if f.Some? {
      var s := FractionText(f) + t;
      assert s[1..] == f.value + t;
      DigitRunOf(f.value, t);
      assert s[1..][..|f.value|] == f.value && s[1..][|f.value|..] == t;
    } else {
      assert FractionText(f) + t == t;
    }
  }

  /** The whole digits of a decimal number are the longest digit run. */
  lemma WholeSplit(w: string, rest: string)
    requires DigitsOk(w) && (|rest| == 0 || !IsDigit(rest[0]))
    ensures RecogniseDecimal(w + rest) == DecimalAfter(w, rest)
  {
    DigitRunOf(w, rest);
    var s := w + rest;
    assert s[..|w|] == w && s[|w|..] == rest;
  }

  /** A valid decimal number, written out, is recognised as itself. */
  lemma DecimalRoundTrip(n: Number)
    requires n.Decimal? && ValidNumber(n)
    ensures RecogniseDecimal(RenderNumber(n)) == Some(n)
  {
    var t := TailText(n.exponent);
    var rest := FractionText(n.fraction) + t;
    TailRoundTrip(n.exponent);
    FractionRoundTrip(n.fraction, t);
    assert DecimalAfter(n.whole, rest) == Some(n);
    assert RenderNumber(n) == n.whole + rest;
    assert |rest| == 0 || !IsDigit(rest[0]);
    WholeSplit(n.whole, rest);
  }

  /** A valid number, written out, is recognised as itself. */
  lemma NumberRoundTrip(n: Number)
    requires ValidNumber(n)
    ensures RecogniseNumber(RenderNumber(n)) == Some(n)
  {
    var s := RenderNumber(n);
    if n.Hex? {
      assert s[2..] == n.digits;
    } else {
      assert s[0] == n.whole[0];
      assert IsDigit(s[0]);
      if s[0] == '0' && |s| >= 2 {
        assert s[1] != 'x' && s[1] != 'X' by {
          if |n.whole| > 1 {
            assert s[1] == n.whole[1];
          } else if n.fraction.Some? {
            assert s[1] == '.';
          } else {
            assert n.exponent.Some?;
            assert s[1] == RenderExponent(n.exponent.value)[0];
          }
        }
      }
      DecimalRoundTrip(n);
    }
  }

  /** The recognised language is exactly the written valid numbers. */
  lemma NumberMatchesIff(s: string)
    ensures RecogniseNumber(s).Some? <==> exists n :: ValidNumber(n) && RenderNumber(n) == s
  {
    if exists n :: ValidNumber(n) && RenderNumber(n) == s {
      var n :| ValidNumber(n) && RenderNumber(n) == s;
      NumberRoundTrip(n);
    }
  }
}
