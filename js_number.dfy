/**
  The JavaScript number built-ins the library uses, on exact `real`s:
  `Number(text)`, integer `toString()` and `toString(16)`, `padStart`, `toUpperCase`,
  `Math.round`, `toFixed(4)`, the `%` operator by 360, and the library's own `trimFloat`
  (defined identically in src/index.ts and src/oklch_css.ts).
 */
module JsNumber {
  import opened Wrappers
  import opened JsText

  predicate IsDigit(c: char) { '0' <= c <= '9' }

  predicate AllDigits(s: string) {
    forall i :: 0 <= i < |s| ==> IsDigit(s[i])
  }

  function DigitValue(c: char): (d: nat)
    requires IsDigit(c)
    ensures d < 10
  {
    c as int - '0' as int
  }

  function DigitChar(d: nat): (c: char)
    requires d < 10
    ensures IsDigit(c) && DigitValue(c) == d
  {
    ('0' as int + d) as char
  }

  function Pow10(k: nat): (p: nat)
    ensures p >= 1
  {
    if k == 0 then 1 else 10 * Pow10(k - 1)
  }

  /** The value of a string of decimal digits (leading zeros allowed). */
  function DigitsValue(s: string): nat
    requires AllDigits(s)
  {
    if s == [] then 0 else DigitsValue(s[..|s| - 1]) * 10 + DigitValue(s[|s| - 1])
  }

  lemma {:induction false} DigitsValueAppend(a: string, b: string)
    requires AllDigits(a) && AllDigits(b)
    ensures AllDigits(a + b)
    ensures DigitsValue(a + b) == DigitsValue(a) * Pow10(|b|) + DigitsValue(b)
  {
    assert AllDigits(a + b);
    if b == [] {
      assert a + b == a;
    } else {
      var b' := b[..|b| - 1];
      var d := DigitValue(b[|b| - 1]);
      assert (a + b)[..|a + b| - 1] == a + b';
      assert (a + b)[|a + b| - 1] == b[|b| - 1];
      DigitsValueAppend(a, b');
      assert DigitsValue(a + b) == DigitsValue(a + b') * 10 + d;
      assert DigitsValue(b) == DigitsValue(b') * 10 + d;
      ShiftDigit(DigitsValue(a), Pow10(|b'|), DigitsValue(b'), d);
    }
  }

  lemma ShiftDigit(x: nat, p: nat, y: nat, d: nat)
    ensures (x * p + y) * 10 + d == x * (10 * p) + (y * 10 + d)
  {
  }

  function Zeros(k: nat): (z: string)
    ensures |z| == k && AllDigits(z) && forall i :: 0 <= i < k ==> z[i] == '0'
  {
    if k == 0 then [] else Zeros(k - 1) + ['0']
  }

  lemma {:induction false} ZerosValue(k: nat)
    ensures DigitsValue(Zeros(k)) == 0
  {
    if k > 0 {
      assert Zeros(k)[..k - 1] == Zeros(k - 1);
      ZerosValue(k - 1);
    }
  }

  /** Decimal text of a natural number, as `String(n)` writes it for n < 10^21. */
  function NatToString(n: nat): (s: string)
    ensures |s| >= 1 && AllDigits(s) && DigitsValue(s) == n
    ensures s[0] == '0' ==> n == 0
  {
    if n < 10 then [DigitChar(n)]
    else
      var s := NatToString(n / 10) + [DigitChar(n % 10)];
      assert s[..|s| - 1] == NatToString(n / 10);
      s
  }

  /** Decimal text of an integer, as a template literal `${n}` writes it for |n| < 10^21. */
  function IntToString(i: int): (s: string)
    ensures |s| >= 1 && IsDigit(s[|s| - 1])
    ensures forall k :: 0 <= k < |s| ==> IsDigit(s[k]) || (k == 0 && s[k] == '-')
  {
    if i < 0 then "-" + NatToString(-i) else NatToString(i)
  }

  /** A digit of `parseInt(_, 16)`: either case is accepted. */
  predicate IsHexDigit(c: char) {
    IsDigit(c) || 'a' <= c <= 'f' || 'A' <= c <= 'F'
  }

  function HexValue(c: char): (d: nat)
    requires IsHexDigit(c)
    ensures d < 16
  {
    if IsDigit(c) then DigitValue(c)
    else if 'a' <= c <= 'f' then c as int - 'a' as int + 10
    else c as int - 'A' as int + 10
  }

  /** The digit `toString(16)` writes for `d` (lower case). */
  function LowerHexChar(d: nat): (c: char)
    requires d < 16
    ensures IsHexDigit(c) && HexValue(c) == d
    ensures !('A' <= c <= 'Z')
  {
    if d < 10 then DigitChar(d) else ('a' as int + d - 10) as char
  }

  /** `n.toString(16)` for a natural number: lower-case hex digits, no leading zero. */
  function NatToHex(n: nat): string {
    if n < 16 then [LowerHexChar(n)] else NatToHex(n / 16) + [LowerHexChar(n % 16)]
  }

  /** `i.toString(16)` for an integer. */
  function IntToHex(i: int): string {
    if i < 0 then "-" + NatToHex(-i) else NatToHex(i)
  }

  /** `s.padStart(2, "0")`. */
  function PadStart2(s: string): string {
    if |s| >= 2 then s else Zeros(2 - |s|) + s
  }

  /** Index of the first `c` in `s`, or `|s|` when there is none. */
  function IndexOf(s: string, c: char): (i: nat)
    ensures i <= |s|
    ensures i < |s| ==> s[i] == c
    ensures forall j :: 0 <= j < i ==> s[j] != c
  {
    if s == [] then 0
    else if s[0] == c then 0
    else 1 + IndexOf(s[1..], c)
  }

  /** `digits`, `digits.`, `digits.digits` or `.digits` (at least one digit in all). */
  predicate IsUnsignedDecimal(u: string) {
    var i := IndexOf(u, '.');
    AllDigits(u[..i]) && (i < |u| ==> AllDigits(u[i + 1..])) && (i > 0 || |u| > i + 1)
  }

  function UnsignedDecimalValue(u: string): real
    requires IsUnsignedDecimal(u)
  {
    var i := IndexOf(u, '.');
    DecimalValue(u[..i], if i < |u| then u[i + 1..] else [])
  }

  /** The value of the digits `ip` followed by the fraction digits `fp`. */
  function DecimalValue(ip: string, fp: string): real
    requires AllDigits(ip) && AllDigits(fp)
  {
    DigitsValue(ip) as real + FractionValue(fp)
  }

  /** The value of `0.fp`. */
  function FractionValue(fp: string): real
    requires AllDigits(fp)
  {
    if fp == [] then 0.0 else (DigitValue(fp[0]) as real + FractionValue(fp[1..])) / 10.0
  }

  /**
    `Number(text)` when the result is finite. The text is trimmed; the empty text is 0;
    otherwise an optional sign and an unsigned decimal literal are accepted. `None` stands
    for NaN and for the infinities (every caller rejects non-finite results alike).
   */
  function Number(s: string): Option<real> {
    var t := Trim(s);
    if t == [] then Some(0.0) else SignedDecimal(t)
  }

  /** An optional `+` or `-`, then an unsigned decimal literal. */
  function SignedDecimal(t: string): Option<real>
    requires t != []
  {
    if t[0] == '-' then Negate(UnsignedDecimal(t[1..]))
    else if t[0] == '+' then UnsignedDecimal(t[1..])
    else UnsignedDecimal(t)
  }

  function UnsignedDecimal(u: string): Option<real> {
    if IsUnsignedDecimal(u) then Some(UnsignedDecimalValue(u)) else None
  }

  function Negate(v: Option<real>): Option<real> {
    if v.Some? then Some(-v.value) else None
  }

  /** `Math.round`: the nearest integer, halves rounded up. */
  function MathRound(x: real): int {
    (x + 0.5).Floor
  }

  /** `Math.round(x)` is the one integer within half a unit of `x`, with halves going up. */
  lemma MathRoundNearest(x: real, n: int)
    ensures x - 0.5 < n as real <= x + 0.5 <==> n == MathRound(x)
  {
  }

  lemma MathRoundOfInteger(k: int)
    ensures MathRound(k as real) == k
  {
  }

  /** The digits of `n`, left-padded with zeros to at least five digits. */
  function FixedDigits(n: nat): (m: string)
    ensures |m| >= 5 && AllDigits(m) && DigitsValue(m) == n
  {
    var d := NatToString(n);
    if |d| <= 4 then
      ZerosValue(5 - |d|);
      DigitsValueAppend(Zeros(5 - |d|), d);
      Zeros(5 - |d|) + d
    else d
  }

  /**
    `x.toFixed(4)` for |x| < 10^21, following the ECMAScript algorithm: the sign, then
    n = the integer nearest to |x|·10^4 (the larger on a tie), written with at least five
    digits and a point before the last four.
   */
  function ToFixed4(x: real): string {
    FixedText(x < 0.0, FixedDigits(MathRound(Abs(x) * 10000.0)))
  }

  function Abs(x: real): (r: real)
    ensures r >= 0.0 && (r == x || r == -x)
  {
    if x < 0.0 then -x else x
  }

  /** A minus when `neg`, then the digits `m` with a point before the last four. */
  function FixedText(neg: bool, m: string): string
    requires |m| >= 4
  {
    (if neg then "-" else "") + m[..|m| - 4] + "." + m[|m| - 4..]
  }

  /** The number that the text of `toFixed(4)` denotes. */
  function Round4(x: real): real {
    if x < 0.0 then -(MathRound(-x * 10000.0) as real / 10000.0)
    else MathRound(x * 10000.0) as real / 10000.0
  }

  /** `x` has at most four decimals. */
  predicate HasFourDecimals(x: real) {
    (x * 10000.0).Floor as real == x * 10000.0
  }

  lemma Round4Exact(x: real)
    requires HasFourDecimals(x)
    ensures Round4(x) == x
  {
    var k := (x * 10000.0).Floor;
    if x < 0.0 {
      assert -x * 10000.0 == (-k) as real;
      MathRoundOfInteger(-k);
    } else {
      MathRoundOfInteger(k);
    }
  }

  lemma Round4Bounds(x: real)
    ensures -0.00005 <= Round4(x) - x <= 0.00005
    ensures 0.0 <= x <= 1.0 ==> 0.0 <= Round4(x) <= 1.0
    ensures x >= 0.0 ==> Round4(x) >= 0.0
  {
  }

  /** The last `k` characters of `s` are all `'0'`, and no longer suffix is. */
  function TrailingZeros(s: string): (k: nat)
    ensures k <= |s|
    ensures forall i :: |s| - k <= i < |s| ==> s[i] == '0'
    ensures k < |s| ==> s[|s| - k - 1] != '0'
  {
    if s != [] && s[|s| - 1] == '0' then TrailingZeros(s[..|s| - 1]) + 1 else 0
  }

  predicate IsZeroRun(w: string) {
    |w| > 0 && forall i :: 0 <= i < |w| ==> w[i] == '0'
  }

  /** `w` belongs to the language of the regular expression `\.?0+`. */
  predicate MatchesDotZeros(w: string) {
    IsZeroRun(w) || (|w| > 1 && w[0] == '.' && IsZeroRun(w[1..]))
  }

  /** `s.replace(/\.?0+$/, "")`: a run of trailing zeros is removed, with the point just before it. */
  function StripZeroTail(s: string): string {
    var k := TrailingZeros(s);
    if k == 0 then s
    else if k < |s| && s[|s| - k - 1] == '.' then s[..|s| - k - 1]
    else s[..|s| - k]
  }

  /**
    `StripZeroTail` removes the leftmost suffix of `s` that matches `\.?0+`, and leaves `s`
    unchanged when no suffix matches: what the regex replacement does.
   */
  lemma StripZeroTailMatch(s: string)
    ensures var r := StripZeroTail(s);
      && |r| <= |s| && r == s[..|r|]
      && (r != s ==> MatchesDotZeros(s[|r|..]))
      && (forall j :: 0 <= j < |r| ==> !MatchesDotZeros(s[j..]))
  {
    var k := TrailingZeros(s);
    StripZeroTailLeftmost(s, k, StripZeroTail(s));
    if k > 0 && k < |s| && s[|s| - k - 1] == '.' {
      assert s[|s| - k - 1..][1..] == s[|s| - k..];
    }
  }

  lemma StripZeroTailLeftmost(s: string, k: nat, r: string)
    requires k == TrailingZeros(s)
    requires r == if k == 0 then s
                  else if k < |s| && s[|s| - k - 1] == '.' then s[..|s| - k - 1]
                  else s[..|s| - k]
    ensures forall j :: 0 <= j < |r| ==> !MatchesDotZeros(s[j..])
  {
    forall j | 0 <= j < |r|
      ensures !MatchesDotZeros(s[j..])
    {
      // a position at or after j that holds neither the zero run nor (unless it is j) a point
      var q := if k == 0 then |s| - 1 else |s| - k - 1;
      assert s[q] != '0';
      assert s[j..][q - j] == s[q];
      if q > j {
        assert s[j..][1..][q - j - 1] == s[q];
      } else {
        assert |s[j..]| == 1 || s[j] != '.';
      }
    }
  }

  /** `trimFloat(n)`: `n.toFixed(4).replace(/\.?0+$/, "")`. */
  function TrimFloat(x: real): string {
    StripZeroTail(ToFixed4(x))
  }

  /** The text of a number as `trimFloat` writes it: digits, at most one point, a leading minus. */
  predicate IsNumeralText(s: string) {
    && |s| >= 1
    && IsDigit(s[|s| - 1])
    && (forall i :: 0 <= i < |s| ==> IsDigit(s[i]) || s[i] == '.' || (i == 0 && s[i] == '-'))
  }

  /** `ToFixed4(x)` split into its sign, integer digits and four fraction digits. */
  lemma ToFixed4Parts(x: real) returns (sign: string, ip: string, fp: string)
    ensures ToFixed4(x) == sign + ip + "." + fp
    ensures sign == (if x < 0.0 then "-" else "")
    ensures |ip| >= 1 && AllDigits(ip) && |fp| == 4 && AllDigits(fp)
    ensures DigitsValue(ip) * 10000 + DigitsValue(fp) == MathRound(Abs(x) * 10000.0)
  {
    var m := FixedDigits(MathRound(Abs(x) * 10000.0));
    sign := if x < 0.0 then "-" else "";
    ip := m[..|m| - 4];
    fp := m[|m| - 4..];
    assert ToFixed4(x) == FixedText(x < 0.0, m);
    SplitDigitsValue(m, ip, fp);
  }

  lemma SplitDigitsValue(m: string, ip: string, fp: string)
    requires AllDigits(m) && |m| >= 4 && ip == m[..|m| - 4] && fp == m[|m| - 4..]
    ensures AllDigits(ip) && AllDigits(fp)
    ensures DigitsValue(ip) * 10000 + DigitsValue(fp) == DigitsValue(m)
  {
    assert ip + fp == m;
    DigitsValueAppend(ip, fp);
    assert Pow10(|fp|) == 10000 by { assert |fp| == 4; }
  }

  /** A digit string without its trailing zeros. */
  function StripZeros(fp: string): (r: string)
    requires AllDigits(fp)
    ensures |r| <= |fp| && AllDigits(r) && fp == r + Zeros(|fp| - |r|)
    ensures r == [] || r[|r| - 1] != '0'
  {
    var k := TrailingZeros(fp);
    var r := fp[..|fp| - k];
    assert fp == r + Zeros(k);
    r
  }

  lemma {:induction false} TrailingZerosAfter(a: string, fp: string)
    requires a != [] && a[|a| - 1] != '0'
    ensures TrailingZeros(a + fp) == TrailingZeros(fp)
  {
    if fp == [] {
      assert a + fp == a;
    } else {
      assert (a + fp)[..|a + fp| - 1] == a + fp[..|fp| - 1];
      TrailingZerosAfter(a, fp[..|fp| - 1]);
    }
  }

  /** The regex replacement on `toFixed` text drops the trailing zeros of the fraction, and the point with them. */
  lemma StripFixed(p: string, fp: string)
    requires |fp| >= 1 && AllDigits(fp)
    ensures var f := StripZeros(fp); StripZeroTail(p + "." + fp) == if f == [] then p else p + "." + f
  {
    var w := p + "." + fp;
    TrailingZerosAfter(p + ".", fp);
    var k := TrailingZeros(fp);
    assert w[|w| - |fp| - 1] == '.';
    if k == |fp| {
      assert w[..|w| - k - 1] == p;
    } else {
      assert w[|w| - k - 1] == fp[|fp| - k - 1];
      assert w[..|w| - k] == p + "." + fp[..|fp| - k];
    }
  }

  /** The digits `ip`, followed by `.fp` when `fp` is not empty. */
  function DecimalText(ip: string, fp: string): string {
    ip + (if fp == [] then [] else "." + fp)
  }

  lemma UnsignedDecimalOf(ip: string, fp: string)
    requires |ip| >= 1 && AllDigits(ip) && AllDigits(fp)
    ensures var u := DecimalText(ip, fp); u != [] && IsDigit(u[0]) && IsDigit(u[|u| - 1])
    ensures IsUnsignedDecimal(DecimalText(ip, fp))
    ensures UnsignedDecimalValue(DecimalText(ip, fp)) == DecimalValue(ip, fp)
  {
    var u := DecimalText(ip, fp);
    assert forall j :: 0 <= j < |ip| ==> u[j] == ip[j] && u[j] != '.';
    if fp == [] {
      assert u == ip;
      assert IndexOf(u, '.') == |ip|;
    } else {
      assert u == ip + "." + fp;
      assert u[|u| - 1] == fp[|fp| - 1];
      assert u[|ip|] == '.';
      assert IndexOf(u, '.') == |ip|;
      assert u[..|ip|] == ip;
      assert u[|ip| + 1..] == fp;
    }
  }

  /** `Number` of a text with no white space at its ends: trimming leaves it as it is. */
  lemma NumberNoEdge(t: string)
    requires t != [] && NoEdgeSpace(t)
    ensures Number(t) == SignedDecimal(t)
  {
    TrimIdentity(t);
  }

  lemma SignedMinus(u: string)
    requires u != [] && IsDigit(u[|u| - 1])
    ensures NoEdgeSpace("-" + u)
    ensures SignedDecimal("-" + u) == Negate(UnsignedDecimal(u))
  {
    var t := "-" + u;
    assert t[|t| - 1] == u[|u| - 1];
    assert t[1..] == u;
  }

  lemma SignedPlain(u: string)
    requires u != [] && IsDigit(u[0]) && IsDigit(u[|u| - 1])
    ensures NoEdgeSpace(u)
    ensures SignedDecimal(u) == UnsignedDecimal(u)
  {
  }

  /** `Number` of an optional minus followed by an unsigned decimal that starts and ends with a digit. */
  lemma NumberOfSigned(sign: string, u: string, v: real)
    requires sign == "" || sign == "-"
    requires IsUnsignedDecimal(u) && u != [] && IsDigit(u[0]) && IsDigit(u[|u| - 1])
    requires UnsignedDecimalValue(u) == v
    ensures Number(sign + u) == Some(if sign == "-" then -v else v)
  {
    if sign == "-" {
      SignedMinus(u);
      NumberNoEdge("-" + u);
    } else {
      assert sign + u == u;
      SignedPlain(u);
      NumberNoEdge(u);
    }
  }

  /** `Number` reads `ip` or `ip.fp`, after an optional minus, as its decimal value. */
  lemma NumberOfDecimal(sign: string, ip: string, fp: string, v: real)
    requires sign == "" || sign == "-"
    requires |ip| >= 1 && AllDigits(ip) && AllDigits(fp)
    requires v == DecimalValue(ip, fp)
    ensures Number(sign + DecimalText(ip, fp)) == Some(if sign == "-" then -v else v)
  {
    UnsignedDecimalOf(ip, fp);
    NumberOfSigned(sign, DecimalText(ip, fp), v);
  }

  lemma {:induction false} FractionZeros(k: nat)
    ensures FractionValue(Zeros(k)) == 0.0
  {
    if k > 0 {
      FractionZeros(k - 1);
      FractionAppendZero(Zeros(k - 1));
    }
  }

  /** A zero appended to fraction digits does not change their value. */
  lemma {:induction false} FractionAppendZero(f: string)
    requires AllDigits(f)
    ensures FractionValue(f + ['0']) == FractionValue(f)
  {
    if f != [] {
      assert (f + ['0'])[1..] == f[1..] + ['0'];
      FractionAppendZero(f[1..]);
    }
  }

  lemma {:induction false} FractionAppendZeros(f: string, k: nat)
    requires AllDigits(f)
    ensures FractionValue(f + Zeros(k)) == FractionValue(f)
  {
    if k > 0 {
      assert f + Zeros(k) == (f + Zeros(k - 1)) + ['0'];
      FractionAppendZeros(f, k - 1);
      FractionAppendZero(f + Zeros(k - 1));
    } else {
      assert f + Zeros(k) == f;
    }
  }

  /** Dropping trailing zeros from the fraction digits leaves the value unchanged. */
  lemma StripZerosValue(ip: string, fp: string)
    requires AllDigits(ip) && AllDigits(fp)
    ensures DecimalValue(ip, StripZeros(fp)) == DecimalValue(ip, fp)
  {
    var f := StripZeros(fp);
    FractionAppendZeros(f, |fp| - |f|);
  }

  /** Four fraction digits are worth their integer value divided by 10^4. */
  lemma FractionFour(fp: string)
    requires AllDigits(fp) && |fp| == 4
    ensures FractionValue(fp) == DigitsValue(fp) as real / 10000.0
  {
    var a, b, c, d := DigitValue(fp[0]), DigitValue(fp[1]), DigitValue(fp[2]), DigitValue(fp[3]);
    assert fp[1..][1..] == fp[2..] && fp[2..][1..] == fp[3..] && fp[3..][1..] == [];
    assert FractionValue(fp[3..]) == d as real / 10.0;
    assert FractionValue(fp[2..]) == (c as real + d as real / 10.0) / 10.0;
    assert FractionValue(fp[1..]) == (b as real + (c as real + d as real / 10.0) / 10.0) / 10.0;
    assert fp[..3][..2] == fp[..2] && fp[..2][..1] == fp[..1] && fp[..1][..0] == [];
    assert DigitsValue(fp[..1]) == a;
    assert DigitsValue(fp[..2]) == a * 10 + b;
    assert DigitsValue(fp[..3]) == (a * 10 + b) * 10 + c;
    assert fp[..4] == fp;
  }

  /** Four fraction digits after the integer digits denote the scaled integer divided by 10^4. */
  lemma FixedValue(ip: string, fp: string, n: int)
    requires AllDigits(ip) && AllDigits(fp) && |fp| == 4
    requires DigitsValue(ip) * 10000 + DigitsValue(fp) == n
    ensures DecimalValue(ip, fp) == n as real / 10000.0
  {
    FractionFour(fp);
  }

  lemma Round4Of(x: real, n: int)
    requires n == MathRound(Abs(x) * 10000.0)
    ensures Round4(x) == if x < 0.0 then -(n as real / 10000.0) else n as real / 10000.0
  {
  }

  /** The shape of the text `sign ip[.f]` when `f` has at most four digits and no trailing zero. */
  lemma DecimalTextShape(sign: string, ip: string, f: string)
    requires sign == "" || sign == "-"
    requires |ip| >= 1 && AllDigits(ip) && AllDigits(f) && |f| <= 4
    requires f == [] || f[|f| - 1] != '0'
    ensures var r := sign + DecimalText(ip, f);
      && IsNumeralText(r)
      && (sign == "" ==> IsDigit(r[0]))
      && (forall i :: 0 <= i < |r| && r[i] == '.' ==> |r| - 5 <= i < |r| - 1 && r[|r| - 1] != '0')
  {
    var r := sign + DecimalText(ip, f);
    var d := |sign| + |ip|;
    assert |r| == d || (|r| == d + 1 + |f| && f != [] && r[d] == '.');
    forall i | 0 <= i < |r|
      ensures i < |sign| ==> r[i] == '-'
      ensures |sign| <= i < d ==> r[i] == ip[i - |sign|]
      ensures d < i ==> r[i] == f[i - d - 1]
    {
    }
    assert IsDigit(r[|r| - 1]);
  }

  /** The value of the text `toFixed(4)` writes, after its trailing fraction zeros are dropped. */
  lemma FixedStripValue(x: real, ip: string, fp: string) returns (v: real)
    requires AllDigits(ip) && AllDigits(fp) && |fp| == 4
    requires DigitsValue(ip) * 10000 + DigitsValue(fp) == MathRound(Abs(x) * 10000.0)
    ensures DecimalValue(ip, StripZeros(fp)) == v && Round4(x) == (if x < 0.0 then -v else v)
  {
    var n := MathRound(Abs(x) * 10000.0);
    StripZerosValue(ip, fp);
    FixedValue(ip, fp, n);
    v := n as real / 10000.0;
    Round4Of(x, n);
  }

  /** `trimFloat` is `toFixed(4)` text with the trailing fraction zeros (and a bare point) removed. */
  lemma TrimFloatParts(x: real) returns (sign: string, ip: string, f: string, v: real)
    ensures TrimFloat(x) == sign + DecimalText(ip, f)
    ensures sign == (if x < 0.0 then "-" else "")
    ensures |ip| >= 1 && AllDigits(ip) && AllDigits(f) && |f| <= 4 && (f == [] || f[|f| - 1] != '0')
    ensures DecimalValue(ip, f) == v && Round4(x) == (if x < 0.0 then -v else v)
  {
    var fp;
    sign, ip, fp, f := TrimFloatText(x);
    v := FixedStripValue(x, ip, fp);
  }

  /** The text of `trimFloat`: the sign, the integer digits and the stripped fraction of `toFixed(4)`. */
  lemma TrimFloatText(x: real) returns (sign: string, ip: string, fp: string, f: string)
    ensures TrimFloat(x) == sign + DecimalText(ip, f)
    ensures sign == (if x < 0.0 then "-" else "")
    ensures |ip| >= 1 && AllDigits(ip) && |fp| == 4 && AllDigits(fp) && f == StripZeros(fp)
    ensures DigitsValue(ip) * 10000 + DigitsValue(fp) == MathRound(Abs(x) * 10000.0)
  {
    sign, ip, fp := ToFixed4Parts(x);
    f := StripZeros(fp);
    StrippedText(ToFixed4(x), sign, ip, fp);
  }

  lemma StrippedText(t: string, sign: string, ip: string, fp: string)
    requires |fp| >= 1 && AllDigits(fp) && t == sign + ip + "." + fp
    ensures StripZeroTail(t) == sign + DecimalText(ip, StripZeros(fp))
  {
    var f := StripZeros(fp);
    StripFixed(sign + ip, fp);
    if f != [] {
      assert sign + DecimalText(ip, f) == sign + ip + "." + f;
    } else {
      assert sign + DecimalText(ip, f) == sign + ip;
    }
  }

  /**
    `trimFloat` writes digits with at most one leading minus, at most four decimals, never
    a point at the end and never a trailing zero after the point.
   */
  lemma TrimFloatShape(x: real)
    ensures var r := TrimFloat(x);
      && IsNumeralText(r)
      && (x >= 0.0 ==> IsDigit(r[0]))
      && (forall i :: 0 <= i < |r| && r[i] == '.' ==> |r| - 5 <= i < |r| - 1 && r[|r| - 1] != '0')
  {
    var sign, ip, f, v := TrimFloatParts(x);
    DecimalTextShape(sign, ip, f);
  }

  /** `Number` reads the text of `trimFloat(x)` back as `x` rounded to four decimals (halves away from zero). */
  lemma TrimFloatNumber(x: real)
    ensures Number(TrimFloat(x)) == Some(Round4(x))
  {
    var sign, ip, f, v := TrimFloatParts(x);
    NumberOfDecimal(sign, ip, f, v);
    if x >= 0.0 {
      assert sign != "-" by { assert |sign| == 0; }
    }
  }

  /** `Number` reads the text of an integer back as that integer. */
  lemma NumberOfInt(k: int)
    ensures Number(IntToString(k)) == Some(k as real)
  {
    if k < 0 {
      NumberOfNegative(k);
    } else {
      NumberOfNatural(k);
    }
  }

  lemma NumberOfNegative(k: int)
    requires k < 0
    ensures Number(IntToString(k)) == Some(k as real)
  {
    NumberOfDigits("-", NatToString(-k), (-k) as real);
  }

  lemma NumberOfNatural(k: int)
    requires k >= 0
    ensures Number(IntToString(k)) == Some(k as real)
  {
    var ip := NatToString(k);
    NumberOfDigits("", ip, k as real);
    assert "" + ip == ip;
  }

  lemma NumberOfDigits(sign: string, ip: string, v: real)
    requires sign == "" || sign == "-"
    requires |ip| >= 1 && AllDigits(ip) && v == DigitsValue(ip) as real
    ensures Number(sign + ip) == Some(if sign == "-" then -v else v)
  {
    assert DecimalText(ip, []) == ip;
    assert DecimalValue(ip, []) == v;
    NumberOfDecimal(sign, ip, [], v);
  }

  /** The integer part of `y`, rounded toward zero. */
  function Trunc(y: real): (t: int)
    ensures y >= 0.0 ==> 0.0 <= t as real <= y
    ensures y < 0.0 ==> y <= t as real <= 0.0
    ensures -1.0 < y - t as real < 1.0
  {
    if y >= 0.0 then y.Floor else -((-y).Floor)
  }

  /** JavaScript's `x % 360`: the remainder of the division truncated toward zero, with the sign of `x`. */
  function Rem360(x: real): (r: real)
    ensures x >= 0.0 ==> 0.0 <= r < 360.0
    ensures x < 0.0 ==> -360.0 < r <= 0.0
    ensures IsWhole((x - r) / 360.0)
  {
    x - 360.0 * Trunc(x / 360.0) as real
  }

  /** `y` is an integer. */
  predicate IsWhole(y: real) {
    y.Floor as real == y
  }

  // ---------------------------------------------------------------- numerals as words

  /** A number as the library writes it is one list value with no `%` at its end. */
  lemma NumeralToken(t: string)
    requires IsNumeralText(t)
    ensures IsToken(t) && t[|t| - 1] != '%'
  {
    assert forall i :: 0 <= i < |t| ==> IsDigit(t[i]) || t[i] == '.' || t[i] == '-';
  }

  /** A numeral followed by `%` is one value, with no white space at either end. */
  lemma PercentToken(n: string)
    requires IsNumeralText(n)
    ensures IsToken(n + "%") && NoEdgeSpace(n + "%")
  {
    NumeralToken(n);
    var t := n + "%";
    assert forall i :: 0 <= i < |t| ==> t[i] == if i < |n| then n[i] else '%';
    TokenFacts(t);
  }

  lemma IntNumeral(k: int)
    ensures IsNumeralText(IntToString(k))
  {
  }
}
