/**
  The parts of JavaScript's String built-ins that the colour parsers rely on:
  `trim`, `split` (by one character or by `/\s+/`), `filter(Boolean)`,
  `toLowerCase` and a case-insensitive prefix test.
 */
module JsText {
  import opened Wrappers

  /** ECMAScript WhiteSpace or LineTerminator: what `trim` strips and what `\s` matches. */
  predicate IsSpace(c: char) {
    var n := c as int;
    n == 0x09 || n == 0x0A || n == 0x0B || n == 0x0C || n == 0x0D || n == 0x20
    || n == 0xA0 || n == 0x1680 || (0x2000 <= n <= 0x200A) || n == 0x2028 || n == 0x2029
    || n == 0x202F || n == 0x205F || n == 0x3000 || n == 0xFEFF
  }

  /** The characters a regular-expression `.` (without the `s` flag) does not match. */
  predicate IsLineTerminator(c: char) {
    var n := c as int;
    n == 0x0A || n == 0x0D || n == 0x2028 || n == 0x2029
  }

  predicate IsSlash(c: char) { c == '/' }

  predicate IsComma(c: char) { c == ',' }

  predicate NoneSatisfy(s: string, p: char -> bool) {
    forall i :: 0 <= i < |s| ==> !p(s[i])
  }

  predicate AllSpace(s: string) {
    forall i :: 0 <= i < |s| ==> IsSpace(s[i])
  }

  /** Neither end of `s` is white space (the empty string included). */
  predicate NoEdgeSpace(s: string) {
    s == [] || (!IsSpace(s[0]) && !IsSpace(s[|s| - 1]))
  }

  function TrimStart(s: string): string {
    if s != [] && IsSpace(s[0]) then TrimStart(s[1..]) else s
  }

  function TrimEnd(s: string): string {
    if s != [] && IsSpace(s[|s| - 1]) then TrimEnd(s[..|s| - 1]) else s
  }

  /** `TrimStart` drops a prefix of white space and stops at a character that is not white space. */
  lemma {:induction false} TrimStartShape(s: string)
    ensures var r := TrimStart(s);
      && |r| <= |s| && r == s[|s| - |r|..]
      && AllSpace(s[..|s| - |r|])
      && (r == [] || !IsSpace(r[0]))
  {
    if s != [] && IsSpace(s[0]) {
      TrimStartShape(s[1..]);
      var r := TrimStart(s);
      assert s[..|s| - |r|] == [s[0]] + s[1..][..|s| - 1 - |r|];
    }
  }

  /** `TrimEnd` drops a suffix of white space and stops at a character that is not white space. */
  lemma {:induction false} TrimEndShape(s: string)
    ensures var r := TrimEnd(s);
      && |r| <= |s| && r == s[..|r|]
      && AllSpace(s[|r|..])
      && (r == [] || !IsSpace(r[|r| - 1]))
  {
    if s != [] && IsSpace(s[|s| - 1]) {
      TrimEndShape(s[..|s| - 1]);
      var r := TrimEnd(s);
      assert s[|r|..] == s[..|s| - 1][|r|..] + [s[|s| - 1]];
    }
  }

  /** `String.prototype.trim`. */
  function Trim(s: string): (r: string)
    ensures NoEdgeSpace(r)
  {
    TrimStartShape(s);
    TrimEndShape(TrimStart(s));
    TrimEnd(TrimStart(s))
  }

  lemma {:induction false} TrimStartFrame(x: string, w: string)
    requires AllSpace(x) && (w == [] || !IsSpace(w[0]))
    ensures TrimStart(x + w) == w
  {
    if x != [] {
      assert (x + w)[1..] == x[1..] + w;
      TrimStartFrame(x[1..], w);
    }
  }

  lemma {:induction false} TrimEndFrame(w: string, y: string)
    requires AllSpace(y) && (w == [] || !IsSpace(w[|w| - 1]))
    ensures TrimEnd(w + y) == w
  {
    if y != [] {
      assert (w + y)[..|w + y| - 1] == w + y[..|y| - 1];
      TrimEndFrame(w, y[..|y| - 1]);
    } else {
      assert w + y == w;
    }
  }

  /** Trimming removes exactly the white space framing a text whose own ends are not white space. */
  lemma TrimFrame(x: string, w: string, y: string)
    requires AllSpace(x) && AllSpace(y) && NoEdgeSpace(w)
    ensures Trim(x + w + y) == w
  {
    if w == [] {
      assert x + w + y == x + y;
      assert AllSpace(x + y);
      TrimStartFrame(x + y, []);
      assert x + y + [] == x + y;
    } else {
      assert x + w + y == x + (w + y);
      TrimStartFrame(x, w + y);
      TrimEndFrame(w, y);
    }
  }

  lemma TrimIdentity(w: string)
    requires NoEdgeSpace(w)
    ensures Trim(w) == w
  {
    TrimFrame([], w, []);
    assert [] + w + [] == w;
  }

  /**
    `s.split(c)` for a one-character separator, generalised to a separator class:
    one piece per separator plus one, empty pieces kept. `split(/\s+/)` followed by
    `filter(Boolean)` equals `NonEmpty(Split(s, IsSpace))`: splitting at every white-space
    character rather than at maximal runs only adds empty pieces, which the filter drops.
   */
  function Split(s: string, sep: char -> bool): (parts: seq<string>)
    ensures |parts| >= 1
    ensures forall i :: 0 <= i < |parts| ==> NoneSatisfy(parts[i], sep)
  {
    if s == [] then [[]]
    else
      var rest := Split(s[1..], sep);
      if sep(s[0]) then [[]] + rest
      else [[s[0]] + rest[0]] + rest[1..]
  }

  lemma {:induction false} SplitNoSep(s: string, sep: char -> bool)
    requires NoneSatisfy(s, sep)
    ensures Split(s, sep) == [s]
  {
    if s != [] {
      SplitNoSep(s[1..], sep);
      assert [s[0]] + s[1..] == s;
    }
  }

  /** A separator ends the first piece; splitting then continues on what follows it. */
  lemma {:induction false} SplitAtSep(a: string, c: char, b: string, sep: char -> bool)
    requires NoneSatisfy(a, sep) && sep(c)
    ensures Split(a + [c] + b, sep) == [a] + Split(b, sep)
  {
    if a == [] {
      assert a + [c] + b == [c] + b;
      assert ([c] + b)[1..] == b;
    } else {
      assert (a + [c] + b)[1..] == a[1..] + [c] + b;
      SplitAtSep(a[1..], c, b, sep);
      assert [a[0]] + a[1..] == a;
    }
  }

  /** `filter(Boolean)` on a list of strings. */
  function NonEmpty(xs: seq<string>): (r: seq<string>)
    ensures |r| <= |xs|
    ensures forall i :: 0 <= i < |r| ==> r[i] != []
  {
    if xs == [] then []
    else (if xs[0] == [] then [] else [xs[0]]) + NonEmpty(xs[1..])
  }

  lemma {:induction false} NonEmptyKeepsAll(xs: seq<string>)
    requires forall i :: 0 <= i < |xs| ==> xs[i] != []
    ensures NonEmpty(xs) == xs
  {
    if xs != [] {
      NonEmptyKeepsAll(xs[1..]);
      assert [xs[0]] + xs[1..] == xs;
    }
  }

  /** `map((x) => x.trim())`. */
  function MapTrim(xs: seq<string>): (r: seq<string>)
    ensures |r| == |xs| && forall i :: 0 <= i < |r| ==> r[i] == Trim(xs[i])
  {
    seq(|xs|, i requires 0 <= i < |xs| => Trim(xs[i]))
  }

  /**
    Lower-casing of one character. Only ASCII letters are mapped: no other character
    lower-cases to an ASCII letter, digit, sign or dot except U+212A (KELVIN SIGN, to `k`),
    which no pattern of this library accepts, so acceptance is unaffected.
   */
  function LowerAscii(c: char): (r: char)
    ensures 'A' <= c <= 'Z' ==> r as int == c as int + 32
    ensures !('A' <= c <= 'Z') ==> r == c
  {
    if 'A' <= c <= 'Z' then (c as int + 32) as char else c
  }

  function ToLower(s: string): (r: string)
    ensures |r| == |s| && forall i :: 0 <= i < |s| ==> r[i] == LowerAscii(s[i])
  {
    seq(|s|, i requires 0 <= i < |s| => LowerAscii(s[i]))
  }

  /** Upper-casing of one character; as with `LowerAscii`, only ASCII letters change. */
  function UpperAscii(c: char): (r: char)
    ensures 'a' <= c <= 'z' ==> r as int == c as int - 32
    ensures !('a' <= c <= 'z') ==> r == c
  {
    if 'a' <= c <= 'z' then (c as int - 32) as char else c
  }

  /** `toUpperCase`, on texts whose only letters are ASCII. */
  function ToUpper(s: string): string {
    if s == [] then [] else [UpperAscii(s[0])] + ToUpper(s[1..])
  }

  /** No ASCII capital letter occurs in `s`. */
  predicate NoUpper(s: string) {
    forall i :: 0 <= i < |s| ==> !('A' <= s[i] <= 'Z')
  }

  lemma ToLowerNoUpper(s: string)
    requires NoUpper(s)
    ensures ToLower(s) == s
  {
  }

  /** Case-insensitive match of a lower-case ASCII prefix, as the regex flag `i` does. */
  predicate StartsWithIgnoreCase(s: string, prefix: string) {
    |s| >= |prefix| && ToLower(s[..|prefix|]) == prefix
  }

  // ---------------------------------------------------------------- words and lists

  /** A character that can sit inside one value of a CSS colour function: no white space, comma, slash or line break. */
  predicate TokenChar(c: char) {
    !IsSpace(c) && !IsLineTerminator(c) && c != ',' && c != '/'
  }

  /** One value of a CSS colour function as written, such as `12`, `50%`, `0.5` or `90deg`. */
  predicate IsToken(t: string) {
    t != [] && forall i :: 0 <= i < |t| ==> TokenChar(t[i])
  }

  /** The values written one after another with `gaps[i]` between `xs[i]` and `xs[i + 1]`. */
  function Spliced(xs: seq<string>, gaps: seq<string>): string
    requires |xs| >= 1 && |gaps| == |xs| - 1
    decreases |xs|
  {
    if |xs| == 1 then xs[0] else xs[0] + gaps[0] + Spliced(xs[1..], gaps[1..])
  }

  /** `n` copies of `sep`. */
  function Repeat(sep: string, n: nat): (r: seq<string>)
    ensures |r| == n && forall i :: 0 <= i < n ==> r[i] == sep
  {
    seq(n, _ => sep)
  }

  /** The values written one after another with `sep` between neighbours. */
  function Join(xs: seq<string>, sep: string): string {
    if xs == [] then [] else Spliced(xs, Repeat(sep, |xs| - 1))
  }

  predicate AllTokens(xs: seq<string>) {
    forall i :: 0 <= i < |xs| ==> IsToken(xs[i])
  }

  /** One or more white-space characters: what `split(/\s+/)` cuts at. */
  predicate SpaceRun(g: string) {
    g != [] && AllSpace(g)
  }

  /** A comma with white space, possibly none, on either side: what `split(",")` followed by `trim` cuts at. */
  predicate CommaGap(g: string) {
    exists k :: 0 <= k < |g| && g[k] == ',' && AllSpace(g[..k]) && AllSpace(g[k + 1..])
  }

  predicate SpaceGaps(gaps: seq<string>) {
    forall i :: 0 <= i < |gaps| ==> SpaceRun(gaps[i])
  }

  predicate CommaGaps(gaps: seq<string>) {
    forall i :: 0 <= i < |gaps| ==> CommaGap(gaps[i])
  }

  lemma TokenFacts(t: string)
    requires IsToken(t)
    ensures NoneSatisfy(t, IsSpace) && NoneSatisfy(t, IsComma) && NoneSatisfy(t, IsSlash)
    ensures NoneSatisfy(t, IsLineTerminator) && NoEdgeSpace(t)
  {
    assert forall i :: 0 <= i < |t| ==> TokenChar(t[i]);
  }

  lemma NoneSatisfyAppend(a: string, b: string, p: char -> bool)
    requires NoneSatisfy(a, p) && NoneSatisfy(b, p)
    ensures NoneSatisfy(a + b, p)
  {
    assert forall i :: 0 <= i < |a + b| ==> (a + b)[i] == if i < |a| then a[i] else b[i - |a|];
  }

  /** A white-space gap and a comma gap hold neither a slash nor (a white-space gap) a comma. */
  lemma GapFacts(g: string)
    requires SpaceRun(g) || CommaGap(g)
    ensures NoneSatisfy(g, IsSlash)
    ensures SpaceRun(g) ==> NoneSatisfy(g, IsComma)
  {
    if !SpaceRun(g) {
      var k :| 0 <= k < |g| && g[k] == ',' && AllSpace(g[..k]) && AllSpace(g[k + 1..]);
      forall i | 0 <= i < |g|
        ensures !IsSlash(g[i])
      {
        if i < k {
          assert g[i] == g[..k][i];
        } else if i > k {
          assert g[i] == g[k + 1..][i - k - 1];
        }
      }
    }
  }

  lemma AllSpaceNoComma(s: string)
    requires AllSpace(s)
    ensures NoneSatisfy(s, IsComma)
  {
  }

  /** A class of characters that neither the values nor the gaps contain does not occur in the spliced text. */
  lemma {:induction false} SplicedNone(xs: seq<string>, gaps: seq<string>, p: char -> bool)
    requires |xs| >= 1 && |gaps| == |xs| - 1
    requires forall i :: 0 <= i < |xs| ==> NoneSatisfy(xs[i], p)
    requires forall i :: 0 <= i < |gaps| ==> NoneSatisfy(gaps[i], p)
    ensures NoneSatisfy(Spliced(xs, gaps), p)
    decreases |xs|
  {
    if |xs| > 1 {
      SplicedNone(xs[1..], gaps[1..], p);
      NoneSatisfyAppend(xs[0], gaps[0], p);
      NoneSatisfyAppend(xs[0] + gaps[0], Spliced(xs[1..], gaps[1..]), p);
    }
  }

  /** The spliced text starts with the first value and ends with the last. */
  lemma {:induction false} SplicedEnds(xs: seq<string>, gaps: seq<string>)
    requires |xs| >= 1 && |gaps| == |xs| - 1 && forall i :: 0 <= i < |xs| ==> xs[i] != []
    ensures var j := Spliced(xs, gaps);
      |j| >= |xs[0]| && j[..|xs[0]|] == xs[0] && j[|j| - 1] == xs[|xs| - 1][|xs[|xs| - 1]| - 1]
    decreases |xs|
  {
    if |xs| > 1 {
      SplicedEnds(xs[1..], gaps[1..]);
    }
  }

  lemma TokensFacts(xs: seq<string>)
    requires AllTokens(xs)
    ensures forall i :: 0 <= i < |xs| ==>
      && NoneSatisfy(xs[i], IsSpace) && NoneSatisfy(xs[i], IsComma) && NoneSatisfy(xs[i], IsSlash)
      && NoneSatisfy(xs[i], IsLineTerminator) && NoEdgeSpace(xs[i])
  {
    forall i | 0 <= i < |xs|
      ensures NoneSatisfy(xs[i], IsSpace) && NoneSatisfy(xs[i], IsComma)
      ensures NoneSatisfy(xs[i], IsSlash) && NoneSatisfy(xs[i], IsLineTerminator) && NoEdgeSpace(xs[i])
    {
      TokenFacts(xs[i]);
    }
  }

  /**
    Values spliced with white-space gaps or with comma gaps form a text with no slash and no
    white space at either end; it has no line break when neither the gaps have one.
   */
  lemma SplicedText(xs: seq<string>, gaps: seq<string>)
    requires |xs| >= 1 && |gaps| == |xs| - 1 && AllTokens(xs) && (SpaceGaps(gaps) || CommaGaps(gaps))
    ensures var j := Spliced(xs, gaps);
      && j != [] && NoEdgeSpace(j) && NoneSatisfy(j, IsSlash)
      && ((forall i :: 0 <= i < |gaps| ==> NoneSatisfy(gaps[i], IsLineTerminator)) ==> NoneSatisfy(j, IsLineTerminator))
  {
    var j := Spliced(xs, gaps);
    TokensFacts(xs);
    SplicedEnds(xs, gaps);
    assert j[0] == xs[0][0];
    forall i | 0 <= i < |gaps|
      ensures NoneSatisfy(gaps[i], IsSlash)
    {
      GapFacts(gaps[i]);
    }
    SplicedNone(xs, gaps, IsSlash);
    if forall i :: 0 <= i < |gaps| ==> NoneSatisfy(gaps[i], IsLineTerminator) {
      SplicedNone(xs, gaps, IsLineTerminator);
    }
  }

  /** A piece of a split at white space has no white space, so trimming leaves every piece as it is. */
  lemma MapTrimSpacePieces(s: string)
    ensures MapTrim(Split(s, IsSpace)) == Split(s, IsSpace)
  {
    var parts := Split(s, IsSpace);
    forall i | 0 <= i < |parts|
      ensures Trim(parts[i]) == parts[i]
    {
      TrimIdentity(parts[i]);
    }
  }

  /** Leading white space only adds empty pieces, which `filter(Boolean)` drops. */
  lemma {:induction false} SpacesAhead(g: string, r: string)
    requires AllSpace(g)
    ensures NonEmpty(Split(g + r, IsSpace)) == NonEmpty(Split(r, IsSpace))
  {
    if g == [] {
      assert g + r == r;
    } else {
      assert g + r == [] + [g[0]] + (g[1..] + r);
      SplitAtSep([], g[0], g[1..] + r, IsSpace);
      var rest := Split(g[1..] + r, IsSpace);
      assert ([[]] + rest)[1..] == rest;
      SpacesAhead(g[1..], r);
    }
  }

  lemma NonEmptyCons(x: string, ys: seq<string>)
    requires x != []
    ensures NonEmpty([x] + ys) == [x] + NonEmpty(ys)
  {
    assert ([x] + ys)[1..] == ys;
  }

  /** Splitting values spliced with runs of white space at every white-space character, and dropping the empty pieces, gives the values back. */
  lemma {:induction false} SplitSpaced(xs: seq<string>, gaps: seq<string>)
    requires |xs| >= 1 && |gaps| == |xs| - 1 && AllTokens(xs) && SpaceGaps(gaps)
    ensures NonEmpty(Split(Spliced(xs, gaps), IsSpace)) == xs
    decreases |xs|
  {
    TokenFacts(xs[0]);
    if |xs| == 1 {
      SplitNoSep(xs[0], IsSpace);
      NonEmptyCons(xs[0], []);
    } else {
      var g := gaps[0];
      var r := Spliced(xs[1..], gaps[1..]);
      assert Spliced(xs, gaps) == xs[0] + [g[0]] + (g[1..] + r);
      SplitAtSep(xs[0], g[0], g[1..] + r, IsSpace);
      NonEmptyCons(xs[0], Split(g[1..] + r, IsSpace));
      SpacesAhead(g[1..], r);
      SplitSpaced(xs[1..], gaps[1..]);
      assert [xs[0]] + xs[1..] == xs;
    }
  }

  /** Splitting values spliced with comma gaps at the commas, and trimming each piece, gives the values back. */
  lemma {:induction false} SplitCommas(lead: string, xs: seq<string>, gaps: seq<string>)
    requires AllSpace(lead) && |xs| >= 1 && |gaps| == |xs| - 1 && AllTokens(xs) && CommaGaps(gaps)
    ensures MapTrim(Split(lead + Spliced(xs, gaps), IsComma)) == xs
    decreases |xs|
  {
    if |xs| == 1 {
      TokenFacts(xs[0]);
      AllSpaceNoComma(lead);
      NoneSatisfyAppend(lead, xs[0], IsComma);
      SplitNoSep(lead + xs[0], IsComma);
      TrimFrame(lead, xs[0], []);
      assert lead + xs[0] + [] == lead + xs[0];
    } else {
      var r := Spliced(xs[1..], gaps[1..]);
      assert lead + Spliced(xs, gaps) == lead + (xs[0] + gaps[0] + r);
      var next := CommaHead(lead, xs[0], gaps[0], r);
      SplitCommas(next, xs[1..], gaps[1..]);
      assert [xs[0]] + xs[1..] == xs;
    }
  }

  /** The first piece of a comma split, trimmed, is the first value; the rest is split from what follows the comma. */
  lemma CommaHead(lead: string, x: string, g: string, r: string) returns (next: string)
    requires AllSpace(lead) && IsToken(x) && CommaGap(g)
    ensures AllSpace(next)
    ensures MapTrim(Split(lead + (x + g + r), IsComma)) == [x] + MapTrim(Split(next + r, IsComma))
  {
    var k :| 0 <= k < |g| && g[k] == ',' && AllSpace(g[..k]) && AllSpace(g[k + 1..]);
    next := g[k + 1..];
    var a := lead + x + g[..k];
    CommaRegroup(lead, x, g, k, r);
    CommaPiece(lead, x, g[..k]);
    SplitAtSep(a, ',', next + r, IsComma);
    MapTrimCons(a, Split(next + r, IsComma));
  }

  lemma CommaRegroup(lead: string, x: string, g: string, k: nat, r: string)
    requires k < |g| && g[k] == ','
    ensures lead + (x + g + r) == (lead + x + g[..k]) + [','] + (g[k + 1..] + r)
  {
    assert g == g[..k] + [','] + g[k + 1..];
  }

  lemma MapTrimCons(a: string, rest: seq<string>)
    ensures MapTrim([a] + rest) == [Trim(a)] + MapTrim(rest)
  {
  }

  lemma CommaPiece(lead: string, x: string, trail: string)
    requires AllSpace(lead) && IsToken(x) && AllSpace(trail)
    ensures NoneSatisfy(lead + x + trail, IsComma) && Trim(lead + x + trail) == x
  {
    TokenFacts(x);
    AllSpaceNoComma(lead);
    AllSpaceNoComma(trail);
    NoneSatisfyAppend(lead, x, IsComma);
    NoneSatisfyAppend(lead + x, trail, IsComma);
    TrimFrame(lead, x, trail);
  }

  /** `n` single spaces are white-space gaps with no line break, and `n` bare commas are comma gaps. */
  lemma UniformGaps(n: nat)
    ensures SpaceGaps(Repeat(" ", n)) && CommaGaps(Repeat(",", n))
    ensures forall i :: 0 <= i < n ==> NoneSatisfy(Repeat(" ", n)[i], IsLineTerminator) && NoneSatisfy(Repeat(",", n)[i], IsLineTerminator)
  {
    assert CommaGap(",") by {
      assert ","[0] == ',' && ","[..0] == [] && ","[1..] == [];
    }
  }

  lemma SplitSlashOnce(a: string, b: string) returns (parts: seq<string>)
    requires NoneSatisfy(a, IsSlash) && NoneSatisfy(b, IsSlash)
    ensures parts == Split(a + ['/'] + b, IsSlash) && parts == [a, b]
  {
    SplitAtSep(a, '/', b, IsSlash);
    SplitNoSep(b, IsSlash);
    parts := [a, b];
  }

  /** Trimming drops one space after `l` and one space before (and after) `w`. */
  lemma SpacedTrims(l: string, w: string)
    requires NoEdgeSpace(l) && NoEdgeSpace(w)
    ensures Trim(l + " ") == l && Trim(" " + w) == w && Trim(" " + w + " ") == w
  {
    TrimSpaceAfter(l);
    TrimSpaceBefore(w);
    TrimSpaceAround(w);
  }

  lemma TrimSpaceAfter(l: string)
    requires NoEdgeSpace(l)
    ensures Trim(l + " ") == l
  {
    AllSpaceOne();
    TrimFrame([], l, " ");
    assert [] + l + " " == l + " ";
  }

  lemma TrimSpaceBefore(w: string)
    requires NoEdgeSpace(w)
    ensures Trim(" " + w) == w
  {
    AllSpaceOne();
    TrimFrame(" ", w, []);
    assert " " + w + [] == " " + w;
  }

  lemma TrimSpaceAround(w: string)
    requires NoEdgeSpace(w)
    ensures Trim(" " + w + " ") == w
  {
    AllSpaceOne();
    TrimFrame(" ", w, " ");
  }

  lemma SpacedNoSlash(l: string, w: string)
    requires NoneSatisfy(l, IsSlash) && NoneSatisfy(w, IsSlash)
    ensures NoneSatisfy(l + " ", IsSlash) && NoneSatisfy(" " + w, IsSlash) && NoneSatisfy(" " + w + " ", IsSlash)
  {
    NoneSatisfyAppend(l, " ", IsSlash);
    NoneSatisfyAppend(" ", w, IsSlash);
    NoneSatisfyAppend(" " + w, " ", IsSlash);
  }

  lemma SplitSlashTwice(a: string, b: string, c: string) returns (parts: seq<string>)
    requires NoneSatisfy(a, IsSlash) && NoneSatisfy(b, IsSlash)
    ensures parts == Split(a + ['/'] + (b + ['/'] + c), IsSlash) && |parts| >= 2 && parts[0] == a && parts[1] == b
  {
    SplitAtSep(a, '/', b + ['/'] + c, IsSlash);
    SplitAtSep(b, '/', c, IsSlash);
    parts := Split(a + ['/'] + (b + ['/'] + c), IsSlash);
  }

  lemma AllSpaceOne()
    ensures AllSpace(" ") && AllSpace([])
  {
  }

  lemma TokensPrefix(xs: seq<string>, n: nat)
    requires AllTokens(xs) && n <= |xs|
    ensures AllTokens(xs[..n])
  {
    assert forall i :: 0 <= i < n ==> xs[..n][i] == xs[i];
  }

  lemma JoinThree(x: string, y: string, z: string)
    ensures Join([x, y, z], " ") == x + " " + y + " " + z
  {
    var gaps := Repeat(" ", 2);
    assert gaps == [" ", " "];
    assert [x, y, z][1..] == [y, z] && [y, z][1..] == [z];
    assert Spliced([y, z], gaps[1..]) == y + " " + z;
    assert Join([x, y, z], " ") == x + " " + (y + " " + z);
  }

  lemma Regroup(a: string, b: string, c: string, d: string, e: string)
    ensures a + b + c + d + e == a + (b + c + d) + e
  {
  }

  lemma ThreeTokens(x: string, y: string, z: string)
    requires IsToken(x) && IsToken(y) && IsToken(z)
    ensures AllTokens([x, y, z])
  {
  }

  // ---------------------------------------------------------------- split("/")

  /** The list before the first `/` (trimmed), and the trimmed text between the first and a second `/`, if any. */
  function SlashParts(body: string): (string, Option<string>) {
    var parts := Split(body, IsSlash);
    (Trim(parts[0]), if |parts| > 1 then Some(Trim(parts[1])) else None)
  }

  /** With no slash, the whole trimmed list is the left part and there is no alpha part. */
  lemma SlashPartsNone(l: string)
    requires NoneSatisfy(l, IsSlash) && NoEdgeSpace(l)
    ensures SlashParts(l) == (l, None)
  {
    SplitNoSep(l, IsSlash);
    TrimIdentity(l);
  }

  /** `l / w`: the left part and the alpha part, each trimmed. */
  lemma SlashPartsOne(l: string, w: string)
    requires NoneSatisfy(l, IsSlash) && NoEdgeSpace(l) && NoneSatisfy(w, IsSlash) && NoEdgeSpace(w)
    ensures SlashParts(l + " / " + w) == (l, Some(w))
  {
    SpacedNoSlash(l, w);
    var parts := SplitSlashOnce(l + " ", " " + w);
    assert l + " / " + w == (l + " ") + ['/'] + (" " + w);
    SpacedTrims(l, w);
  }

  /** `l / w / u`: whatever follows a second slash is not looked at. */
  lemma SlashPartsTwo(l: string, w: string, u: string)
    requires NoneSatisfy(l, IsSlash) && NoEdgeSpace(l) && NoneSatisfy(w, IsSlash) && NoEdgeSpace(w)
    ensures SlashParts(l + " / " + w + " / " + u) == (l, Some(w))
  {
    SpacedNoSlash(l, w);
    assert l + " / " + w + " / " + u == (l + " ") + ['/'] + ((" " + w + " ") + ['/'] + (" " + u));
    var parts := SplitSlashTwice(l + " ", " " + w + " ", " " + u);
    TrimSpaceAfter(l);
    TrimSpaceAround(w);
  }
}
