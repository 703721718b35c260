/** Character classes and string helpers shared by the importer: the
    ECMAScript whitespace set, `String.prototype.trim`, ASCII digits and the
    decimal rendering of a non-negative integer. */
module Strings {

  /** ECMAScript WhiteSpace and LineTerminator code points. `trim()` removes
      exactly these at both ends, and the regular-expression class `\s`
      matches exactly these. */
  predicate IsWs(c: char) {
    c == '\t' || c == '\n' || c == '\U{000B}' || c == '\U{000C}' || c == '\r'
    || c == ' ' || c == '\U{00A0}' || c == '\U{1680}'
    || ('\U{2000}' <= c <= '\U{200A}')
    || c == '\U{2028}' || c == '\U{2029}' || c == '\U{202F}' || c == '\U{205F}'
    || c == '\U{3000}' || c == '\U{FEFF}'
  }

  predicate AllWs(s: string) {
    forall i :: 0 <= i < |s| ==> IsWs(s[i])
  }

  predicate NoWs(s: string) {
    forall i :: 0 <= i < |s| ==> !IsWs(s[i])
  }

  /** `s` neither starts nor ends with whitespace. */
  predicate Trimmed(s: string) {
    s == [] || (!IsWs(s[0]) && !IsWs(s[|s| - 1]))
  }

  /** How many whitespace characters `s` starts with. */
  function LeadingWs(s: string): (k: nat)
    ensures k <= |s| && AllWs(s[..k])
    ensures k == |s| || !IsWs(s[k])
  {
    if s != [] && IsWs(s[0]) then 1 + LeadingWs(s[1..]) else 0
  }

  /** Where the whitespace that `s` ends with begins. */
  function TrailingWsStart(s: string): (k: nat)
    ensures k <= |s| && AllWs(s[k..])
    ensures k == 0 || !IsWs(s[k - 1])
  {
    if s != [] && IsWs(s[|s| - 1]) then TrailingWsStart(s[..|s| - 1]) else |s|
  }

  /** `String.prototype.trim`: the result neither starts nor ends with
      whitespace; `TrimSplits` and `TrimOfPadded` below say that it is what
      is left of `s` once the whitespace at both ends is cut. */
  function Trim(s: string): (r: string)
    ensures Trimmed(r) && |r| <= |s|
  {
    var a := LeadingWs(s);
    if a == |s| then []
    else
      var b := TrailingWsStart(s);
      assert a < b;
      s[a..b]
  }

  /** `s` is its trimmed value with whitespace on either side. */
  lemma TrimSplits(s: string)
    ensures exists w1, w2 :: AllWs(w1) && AllWs(w2) && s == w1 + Trim(s) + w2
  {
    var a, b := LeadingWs(s), TrailingWsStart(s);
    if a == |s| {
      assert s[..a] == s;
      assert AllWs(s) && AllWs([]) && s == s + Trim(s) + [];
    } else {
      var w1, w2 := s[..a], s[b..];
      assert AllWs(w1) && AllWs(w2);
      assert s == w1 + Trim(s) + w2;
    }
  }

  lemma {:induction false} LeadingWsOfPadded(w: string, x: string)
    requires AllWs(w)
    requires x == [] || !IsWs(x[0])
    ensures LeadingWs(w + x) == |w|
    decreases |w|
  {
    if w != [] {
      assert (w + x)[0] == w[0];
      assert (w + x)[1..] == w[1..] + x;
      LeadingWsOfPadded(w[1..], x);
    } else {
      assert w + x == x;
    }
  }

  lemma {:induction false} TrailingWsStartOfPadded(x: string, w: string)
    requires AllWs(w)
    requires x == [] || !IsWs(x[|x| - 1])
    ensures TrailingWsStart(x + w) == |x|
    decreases |w|
  {
    if w != [] {
      assert (x + w)[|x + w| - 1] == w[|w| - 1];
      assert (x + w)[..|x + w| - 1] == x + w[..|w| - 1];
      TrailingWsStartOfPadded(x, w[..|w| - 1]);
    } else {
      assert x + w == x;
    }
  }

  /** Reference characterisation of `trim()`: whatever whitespace surrounds
      a string that neither starts nor ends with whitespace, trimming gives
      back exactly that string. */
  lemma TrimOfPadded(w1: string, x: string, w2: string)
    requires AllWs(w1) && AllWs(w2) && Trimmed(x)
    ensures Trim(w1 + x + w2) == x
  {
    var s := w1 + x + w2;
    if x == [] {
      assert s == (w1 + w2) + [];
      assert AllWs(w1 + w2);
      LeadingWsOfPadded(w1 + w2, []);
    } else {
      assert s == w1 + (x + w2);
      LeadingWsOfPadded(w1, x + w2);
      TrailingWsStartOfPadded(w1 + x, w2);
      assert s[|w1|..|w1| + |x|] == x;
    }
  }

  /** Trimming twice is the same as trimming once. */
  lemma TrimIdempotent(s: string)
    ensures Trim(Trim(s)) == Trim(s)
  {
    var r := Trim(s);
    assert r == [] + r + [];
    TrimOfPadded([], r, []);
  }

  predicate IsDigit(c: char) {
    '0' <= c <= '9'
  }

  predicate AllDigits(s: string) {
    forall i :: 0 <= i < |s| ==> IsDigit(s[i])
  }

  function DigitChar(d: nat): (c: char)
    requires d < 10
    ensures IsDigit(c) && (c as int) - ('0' as int) == d
  {
    (('0' as int) + d) as char
  }

  /** The value of a string of ASCII digits read as a decimal numeral
      (leading zeros allowed). */
  function DecimalValue(s: string): nat
    requires AllDigits(s)
  {
    if s == [] then 0
    else DecimalValue(s[..|s| - 1]) * 10 + ((s[|s| - 1] as int) - ('0' as int))
  }

  /** How a template literal renders a non-negative integer: the shortest
      decimal numeral, without leading zeros. */
  function Decimal(n: nat): (r: string)
    ensures |r| >= 1 && AllDigits(r)
    ensures r[0] == '0' ==> r == "0"
  {
    if n < 10 then [DigitChar(n)] else Decimal(n / 10) + [DigitChar(n % 10)]
  }

  /** Reading the rendered numeral back gives the number. */
  lemma {:induction false} DecimalRoundTrip(n: nat)
    ensures DecimalValue(Decimal(n)) == n
  {
    if n >= 10 {
      DecimalRoundTrip(n / 10);
      var r := Decimal(n);
      assert r[..|r| - 1] == Decimal(n / 10);
    }
  }

  function Pow10(k: nat): nat {
    if k == 0 then 1 else 10 * Pow10(k - 1)
  }

  /** A number below 10^k takes at most k digits. */
  lemma {:induction false} DecimalWidth(n: nat, k: nat)
    requires 1 <= k && n < Pow10(k)
    ensures |Decimal(n)| <= k
  {
    if n >= 10 {
      assert n / 10 < Pow10(k - 1);
      DecimalWidth(n / 10, k - 1);
    }
  }

  /** `n` rendered in decimal and left-padded with zeros to at least
      `width` characters. */
  function PadDecimal(n: nat, width: nat): (r: string)
    ensures AllDigits(r)
    ensures |r| == if |Decimal(n)| < width then width else |Decimal(n)|
    ensures DecimalValue(r) == n
  {
    var d := Decimal(n);
    DecimalRoundTrip(n);
    if |d| < width then
      var z := seq(width - |d|, _ => '0');
      ZerosPrefix(z, d);
      z + d
    else d
  }

  lemma {:induction false} ZerosPrefix(z: string, d: string)
    requires forall i :: 0 <= i < |z| ==> z[i] == '0'
    requires AllDigits(d)
    ensures AllDigits(z + d) && DecimalValue(z + d) == DecimalValue(d)
    decreases |d|
  {
    if d == [] {
      ZerosValue(z);
      assert z + d == z;
    } else {
      assert (z + d)[..|z + d| - 1] == z + d[..|d| - 1];
      ZerosPrefix(z, d[..|d| - 1]);
    }
  }

  lemma {:induction false} ZerosValue(z: string)
    requires forall i :: 0 <= i < |z| ==> z[i] == '0'
    ensures AllDigits(z) && DecimalValue(z) == 0
    decreases |z|
  {
    if z != [] {
      ZerosValue(z[..|z| - 1]);
    }
  }
}
