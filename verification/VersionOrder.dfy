/** The order behind version comparison: a version is a list of tokens, each a number or a word with the
    length of the separator before it, and comparison is lexicographic on those lists. */
module VersionOrder {
  import opened Packages
  import opened Version

  datatype Segment = Number(value: nat) | Word(text: string)
  datatype Token = Token(sep: nat, seg: Segment)

  function Digit(c: char): (d: nat)
    requires IsDigit(c)
    ensures d <= 9
  {
    (c as int - '0' as int) as nat
  }

  predicate AllDigits(s: string) {
    forall i :: 0 <= i < |s| ==> IsDigit(s[i])
  }

  function Pow10(n: nat): (p: nat)
    ensures p > 0
  {
    if n == 0 then 1 else 10 * Pow10(n - 1)
  }

  /** The number a run of digits of any length stands for. */
  function Value(s: string): (v: nat)
    requires AllDigits(s)
  {
    if s == "" then 0 else 10 * Value(s[..|s| - 1]) + Digit(s[|s| - 1])
  }

  function CompareNat(a: nat, b: nat): (r: int) {
    if a < b then -1 else if a > b then 1 else 0
  }

  lemma {:induction false} ValueBounds(s: string)
    requires AllDigits(s)
    ensures Value(s) < Pow10(|s|)
    ensures s != "" && s[0] != '0' ==> Pow10(|s| - 1) <= Value(s)
  {
    if s != "" { ValueBounds(s[..|s| - 1]); }
  }

  lemma {:induction false} LeadingZero(s: string)
    requires AllDigits(s) && s != "" && s[0] == '0'
    ensures Value(s[1..]) == Value(s)
  {
    if |s| > 1 {
      LeadingZero(s[..|s| - 1]);
      assert s[1..][..|s| - 2] == s[..|s| - 1][1..];
    }
  }

  lemma {:induction false} StripKeepsValue(s: string)
    requires AllDigits(s)
    ensures AllDigits(s[Zeros(s)..]) && Value(s[Zeros(s)..]) == Value(s)
    ensures s[Zeros(s)..] != "" ==> s[Zeros(s)] != '0'
  {
    if s != "" && s[0] == '0' {
      StripKeepsValue(s[1..]);
      LeadingZero(s);
      assert s[Zeros(s)..] == s[1..][Zeros(s[1..])..];
    }
  }

  lemma LongerIsLarger(a: string, b: string)
    requires AllDigits(a) && AllDigits(b) && |a| > |b| && a[0] != '0'
    ensures Value(a) > Value(b)
  {
    ValueBounds(a);
    ValueBounds(b);
    PowMonotone(|b|, |a| - 1);
  }

  lemma {:induction false} PowMonotone(m: nat, n: nat)
    requires m <= n
    ensures Pow10(m) <= Pow10(n)
  {
    if m < n { PowMonotone(m, n - 1); }
  }

  lemma {:induction false} StrcmpAppend(a: string, b: string, c: char, d: char)
    requires |a| == |b|
    ensures Strcmp(a + [c], b + [d]) ==
      if Strcmp(a, b) != 0 then Strcmp(a, b) else if c < d then -1 else if c > d then 1 else 0
  {
    if a != "" {
      StrcmpAppend(a[1..], b[1..], c, d);
      assert (a + [c])[1..] == a[1..] + [c] && (b + [d])[1..] == b[1..] + [d];
    }
  }

  lemma {:induction false} SameLengthValue(a: string, b: string)
    requires AllDigits(a) && AllDigits(b) && |a| == |b|
    ensures Strcmp(a, b) == CompareNat(Value(a), Value(b))
  {
    if a != "" {
      var n := |a| - 1;
      SameLengthValue(a[..n], b[..n]);
      StrcmpAppend(a[..n], b[..n], a[n], b[n]);
      assert a == a[..n] + [a[n]] && b == b[..n] + [b[n]];
    }
  }

  /** Digit runs compare as the numbers they stand for. */
  lemma CompareDigitsIsNumeric(a: string, b: string)
    requires AllDigits(a) && AllDigits(b)
    ensures CompareDigits(a, b) == CompareNat(Value(a), Value(b))
  {
    StripKeepsValue(a);
    StripKeepsValue(b);
    var a', b' := a[Zeros(a)..], b[Zeros(b)..];
    if |a'| > |b'| { LongerIsLarger(a', b'); }
    else if |b'| > |a'| { LongerIsLarger(b', a'); }
    else { SameLengthValue(a', b'); }
  }

  // ---------- tokens and their order ----------

  lemma {:induction false} DigitsAre(s: string)
    ensures AllDigits(s[..Digits(s)])
  {
    if s != "" && IsDigit(s[0]) {
      DigitsAre(s[1..]);
      assert s[..Digits(s)] == [s[0]] + s[1..][..Digits(s[1..])];
    }
  }

  function Tokens(s: string): (r: seq<Token>)
    decreases |s|
  {
    var n := Seps(s);
    var s' := s[n..];
    if s' == "" then []
    else if IsDigit(s'[0]) then
      DigitsAre(s');
      [Token(n, Number(Value(s'[..Digits(s')])))] + Tokens(s'[Digits(s')..])
    else
      AfterSeps(s);
      [Token(n, Word(s'[..Alphas(s')]))] + Tokens(s'[Alphas(s')..])
  }

  // what the tokens of a text are, by the codes of its characters

  predicate DigitCode(c: char) { 48 <= c as int <= 57 }
  predicate LetterCode(c: char) { 65 <= c as int <= 90 || 97 <= c as int <= 122 }

  ghost predicate AllOf(s: string, kind: char -> bool) {
    forall i :: 0 <= i < |s| ==> kind(s[i])
  }

  ghost predicate NoneOf(s: string) {
    forall i :: 0 <= i < |s| ==> !DigitCode(s[i]) && !LetterCode(s[i])
  }

  lemma {:induction false} SepsOf(u: string, t: string)
    requires NoneOf(u) && (t == "" || DigitCode(t[0]) || LetterCode(t[0]))
    ensures Seps(u + t) == |u| && (u + t)[|u|..] == t
  {
    if u == "" {
      assert u + t == t;
    } else {
      var s := u + t;
      assert s[1..] == u[1..] + t && s[0] == u[0];
      SepsOf(u[1..], t);
    }
  }

  lemma {:induction false} DigitsOf(w: string, t: string)
    requires AllOf(w, DigitCode) && (t == "" || !DigitCode(t[0]))
    ensures Digits(w + t) == |w| && (w + t)[..|w|] == w && (w + t)[|w|..] == t && AllDigits(w)
  {
    if w == "" {
      assert w + t == t;
    } else {
      DigitsOf(w[1..], t);
      assert (w + t)[1..] == w[1..] + t;
    }
  }

  lemma {:induction false} AlphasOf(w: string, t: string)
    requires AllOf(w, LetterCode) && (t == "" || !LetterCode(t[0]))
    ensures Alphas(w + t) == |w| && (w + t)[..|w|] == w && (w + t)[|w|..] == t
  {
    if w == "" {
      assert w + t == t;
    } else {
      AlphasOf(w[1..], t);
      assert (w + t)[1..] == w[1..] + t;
    }
  }

  /** Separators and a run of digits make a number token, and what follows is read on its own. */
  lemma NumberToken(u: string, w: string, rest: string)
    requires NoneOf(u) && w != "" && AllOf(w, DigitCode) && (rest == "" || !DigitCode(rest[0]))
    ensures AllDigits(w) && Tokens(u + (w + rest)) == [Token(|u|, Number(Value(w)))] + Tokens(rest)
  {
    assert (w + rest)[0] == w[0];
    SepsOf(u, w + rest);
    DigitsOf(w, rest);
  }

  /** Separators and a run of letters make a word token. */
  lemma WordToken(u: string, w: string, rest: string)
    requires NoneOf(u) && w != "" && AllOf(w, LetterCode) && (rest == "" || !LetterCode(rest[0]))
    ensures Tokens(u + (w + rest)) == [Token(|u|, Word(w))] + Tokens(rest)
  {
    assert (w + rest)[0] == w[0];
    SepsOf(u, w + rest);
    AlphasOf(w, rest);
  }

  /** Separators alone make none; and a text ends in a separator if its last character is neither. */
  lemma NoToken(u: string, s: string)
    requires NoneOf(u)
    ensures Tokens(u) == []
    ensures EndsInSeparator(s) <==> s != "" && !DigitCode(s[|s| - 1]) && !LetterCode(s[|s| - 1])
  {
    SepsOf(u, "");
    assert u + "" == u;
  }

  function CompareSegment(x: Segment, y: Segment): (r: int) {
    match (x, y)
    case (Number(m), Number(n)) => CompareNat(m, n)
    case (Word(a), Word(b)) => Strcmp(a, b)
    case (Number(_), Word(_)) => 1
    case (Word(_), Number(_)) => -1
  }

  function CompareToken(x: Token, y: Token): (r: int) {
    if x.sep != y.sep then CompareNat(x.sep, y.sep) else CompareSegment(x.seg, y.seg)
  }

  /** How a list that goes on with token t compares with one that ends: only a word attached without a
      separator is older than the end. */
  function AgainstEnd(t: Token): (r: int) {
    if t.sep == 0 && t.seg.Word? then -1 else 1
  }

  function CompareTokens(xs: seq<Token>, ys: seq<Token>): (r: int) {
    if xs == [] && ys == [] then 0
    else if xs == [] then -AgainstEnd(ys[0])
    else if ys == [] then AgainstEnd(xs[0])
    else
      var c := CompareToken(xs[0], ys[0]);
      if c != 0 then c else CompareTokens(xs[1..], ys[1..])
  }

  lemma {:induction false} TokensAntisymmetric(xs: seq<Token>, ys: seq<Token>)
    ensures CompareTokens(xs, ys) == -CompareTokens(ys, xs)
  {
    if xs != [] && ys != [] {
      if xs[0].seg.Word? && ys[0].seg.Word? { StrcmpFacts(xs[0].seg.text, ys[0].seg.text); }
      TokensAntisymmetric(xs[1..], ys[1..]);
    }
  }

  lemma SegmentTransitive(x: Segment, y: Segment, z: Segment)
    ensures CompareSegment(x, y) <= 0 && CompareSegment(y, z) <= 0 ==> CompareSegment(x, z) <= 0
    ensures CompareSegment(x, y) <= 0 && CompareSegment(y, z) <= 0 && CompareSegment(x, z) == 0
      ==> CompareSegment(x, y) == 0 && CompareSegment(y, z) == 0
  {
    if x.Word? && y.Word? && z.Word? {
      StrcmpFacts(x.text, z.text);
      StrcmpFacts(x.text, y.text);
      if Strcmp(x.text, y.text) <= 0 && Strcmp(y.text, z.text) <= 0 { StrcmpTransitive(x.text, y.text, z.text); }
    }
  }

  lemma TokenTransitive(x: Token, y: Token, z: Token)
    ensures CompareToken(x, y) <= 0 && CompareToken(y, z) <= 0 ==> CompareToken(x, z) <= 0
    ensures CompareToken(x, y) <= 0 && CompareToken(y, z) <= 0 && CompareToken(x, z) == 0
      ==> CompareToken(x, y) == 0 && CompareToken(y, z) == 0
  {
    SegmentTransitive(x.seg, y.seg, z.seg);
  }

  lemma {:induction false} TokensTransitive(xs: seq<Token>, ys: seq<Token>, zs: seq<Token>)
    requires CompareTokens(xs, ys) <= 0 && CompareTokens(ys, zs) <= 0
    ensures CompareTokens(xs, zs) <= 0
  {
    if xs != [] && ys != [] && zs != [] {
      TokenTransitive(xs[0], ys[0], zs[0]);
      if CompareToken(xs[0], zs[0]) == 0 { TokensTransitive(xs[1..], ys[1..], zs[1..]); }
    }
  }

  // ---------- comparison is the lexicographic order ----------

  predicate EndsInSeparator(s: string) {
    s != "" && !IsAlnum(s[|s| - 1])
  }

  lemma SuffixEnds(s: string, n: nat)
    requires !EndsInSeparator(s) && n <= |s|
    ensures !EndsInSeparator(s[n..])
  {}

  lemma {:induction false} SepsStop(s: string)
    requires s != "" && !EndsInSeparator(s)
    ensures s[Seps(s)..] != "" && IsAlnum(s[Seps(s)])
  {
    if !IsAlnum(s[0]) { SepsStop(s[1..]); }
  }

  /** The tokens of a string that goes on with a segment after n separators. */
  lemma TokensFrom(s: string)
    requires s != "" && !EndsInSeparator(s)
    ensures var s' := s[Seps(s)..];
      && s' != "" && IsAlnum(s'[0]) && !EndsInSeparator(s')
        && Tokens(s) == [Token(Seps(s), First(s'))] + Tokens(Rest(s'))
      && !EndsInSeparator(Rest(s')) && |Rest(s')| < |s'|
  {
    SepsStop(s);
    var s' := s[Seps(s)..];
    SuffixEnds(s, Seps(s));
    SuffixEnds(s', |s'| - |Rest(s')|);
  }

  function First(s: string): (r: Segment)
    requires s != "" && IsAlnum(s[0])
  {
    DigitsAre(s);
    if IsDigit(s[0]) then Number(Value(s[..Digits(s)])) else Word(s[..Alphas(s)])
  }

  function Rest(s: string): (r: string)
    requires s != "" && IsAlnum(s[0])
    ensures |r| < |s| && r == s[|s| - |r|..]
  {
    if IsDigit(s[0]) then s[Digits(s)..] else s[Alphas(s)..]
  }

  lemma CompareHereIs(a: string, b: string)
    requires a != "" && b != "" && IsAlnum(a[0]) && IsAlnum(b[0])
    ensures var c := CompareSegment(First(a), First(b));
      CompareHere(a, b) == if c != 0 then c else Compare(Rest(a), Rest(b))
  {
    DigitsAre(a);
    DigitsAre(b);
    if IsDigit(a[0]) && IsDigit(b[0]) { CompareDigitsIsNumeric(a[..Digits(a)], b[..Digits(b)]); }
  }

  lemma EndCase(s: string)
    requires s != "" && !EndsInSeparator(s)
    ensures Tokens(s) != [] && Showdown(s, "") == AgainstEnd(Tokens(s)[0])
    ensures Showdown("", s) == -AgainstEnd(Tokens(s)[0])
  {
    TokensFrom(s);
    assert s[Seps(s)..][0] == s[Seps(s)];
  }

  lemma CompareCons(x: Token, xs: seq<Token>, y: Token, ys: seq<Token>)
    ensures var c := CompareToken(x, y);
      CompareTokens([x] + xs, [y] + ys) == if c != 0 then c else CompareTokens(xs, ys)
  {
    assert ([x] + xs)[1..] == xs && ([y] + ys)[1..] == ys;
  }

  lemma {:induction false} CompareIsLexicographic(a: string, b: string)
    requires !EndsInSeparator(a) && !EndsInSeparator(b)
    ensures Compare(a, b) == CompareTokens(Tokens(a), Tokens(b))
    decreases |a|
  {
    if a == "" && b == "" {
    } else if a == "" {
      EndCase(b);
    } else if b == "" {
      EndCase(a);
    } else {
      TokensFrom(a);
      TokensFrom(b);
      var a', b' := a[Seps(a)..], b[Seps(b)..];
      CompareIsLexicographic(Rest(a'), Rest(b'));
      CompareHereIs(a', b');
      CompareCons(Token(Seps(a), First(a')), Tokens(Rest(a')), Token(Seps(b), First(b')), Tokens(Rest(b')));
    }
  }

  // ---------- what kind of order it is ----------

  lemma {:induction false} CompareAntisymmetric(a: string, b: string)
    ensures Compare(a, b) == -Compare(b, a)
    decreases |a|
  {
    if a != "" && b != "" {
      AfterSeps(a);
      AfterSeps(b);
      var a', b' := a[Seps(a)..], b[Seps(b)..];
      if a' != "" && b' != "" && Seps(a) == Seps(b) {
        CompareHereIs(a', b');
        CompareHereIs(b', a');
        SegmentAntisymmetric(First(a'), First(b'));
        CompareAntisymmetric(Rest(a'), Rest(b'));
      }
    }
  }

  lemma SegmentAntisymmetric(x: Segment, y: Segment)
    ensures CompareSegment(x, y) == -CompareSegment(y, x)
  {
    if x.Word? && y.Word? { StrcmpFacts(x.text, y.text); }
  }

  /** Swapping the arguments swaps the sign, for all strings. */
  lemma VerCmpAntisymmetric(a: string, b: string)
    ensures RpmVerCmp(a, b) == -RpmVerCmp(b, a)
  {
    CompareAntisymmetric(a, b);
  }

  /** On strings that do not end in a separator, comparison is the lexicographic order of the tokens. */
  lemma VerCmpIsLexicographic(a: string, b: string)
    requires !EndsInSeparator(a) && !EndsInSeparator(b)
    ensures RpmVerCmp(a, b) == CompareTokens(Tokens(a), Tokens(b))
  {
    CompareIsLexicographic(a, b);
    TokensAntisymmetric(Tokens(a), Tokens(a));
  }

  lemma VerCmpTransitive(a: string, b: string, c: string)
    requires !EndsInSeparator(a) && !EndsInSeparator(b) && !EndsInSeparator(c)
    requires RpmVerCmp(a, b) <= 0 && RpmVerCmp(b, c) <= 0
    ensures RpmVerCmp(a, c) <= 0
  {
    VerCmpIsLexicographic(a, b);
    VerCmpIsLexicographic(b, c);
    VerCmpIsLexicographic(a, c);
    TokensTransitive(Tokens(a), Tokens(b), Tokens(c));
  }

  // ---------- a trailing separator always breaks the order ----------

  lemma {:induction false} RunsAppend(s: string, u: string)
    requires u != "" && !IsAlnum(u[0])
    ensures Digits(s + u) == Digits(s) && Alphas(s + u) == Alphas(s)
    ensures Seps(s) < |s| ==> Seps(s + u) == Seps(s)
  {
    if s != "" {
      RunsAppend(s[1..], u);
      assert (s + u)[1..] == s[1..] + u;
    }
  }

  /** A common beginning that does not end in a separator does not matter before separators. */
  lemma {:induction false} CommonBeginning(p: string, u: string, v: string, r: int)
    requires p == "" || !EndsInSeparator(p)
    requires u != "" && !IsAlnum(u[0]) && v != "" && !IsAlnum(v[0]) && Compare(u, v) == r
    ensures Compare(p + u, p + v) == r
    decreases |p|
  {
    if p == "" {
      assert p + u == u && p + v == v;
    } else {
      var p' := SkipCommonSeps(p, u, v);
      CommonBeginning(Rest(p'), u, v, r);
      CommonSegment(p', u, v, r);
      ComparePast(p + u, p + v, p' + u, p' + v, r);
    }
  }

  lemma ComparePast(a: string, b: string, a': string, b': string, r: int)
    requires a != "" && b != "" && Seps(a) == Seps(b) && a' == a[Seps(a)..] && b' == b[Seps(b)..] && a' != ""
    requires b' != ""
    requires CompareHere(a', b') == r
    ensures Compare(a, b) == r
  {}

  lemma SkipCommonSeps(p: string, u: string, v: string) returns (p': string)
    requires p != "" && !EndsInSeparator(p) && u != "" && !IsAlnum(u[0]) && v != "" && !IsAlnum(v[0])
    ensures p' != "" && IsAlnum(p'[0]) && |p'| <= |p| && !EndsInSeparator(Rest(p'))
    ensures Seps(p + u) == Seps(p + v) && p' + u == (p + u)[Seps(p + u)..] && p' + v == (p + v)[Seps(p + v)..]
  {
    TokensFrom(p);
    SepsAppend(p, u);
    SepsAppend(p, v);
    p' := p[Seps(p)..];
  }

  lemma SepsAppend(p: string, u: string)
    requires Seps(p) < |p| && u != "" && !IsAlnum(u[0])
    ensures Seps(p + u) == Seps(p) && (p + u)[Seps(p)..] == p[Seps(p)..] + u
  {
    RunsAppend(p, u);
  }

  /** A common first segment does not matter. */
  lemma CommonSegment(p: string, u: string, v: string, r: int)
    requires p != "" && IsAlnum(p[0]) && u != "" && !IsAlnum(u[0]) && v != "" && !IsAlnum(v[0])
    requires Compare(Rest(p) + u, Rest(p) + v) == r
    ensures CompareHere(p + u, p + v) == r
  {
    RunsAppend(p, u);
    RunsAppend(p, v);
    SameFirst(p, u);
    SameFirst(p, v);
    CompareHereIs(p + u, p + v);
    SegmentAntisymmetric(First(p), First(p));
  }

  lemma SameFirst(p: string, u: string)
    requires p != "" && IsAlnum(p[0]) && Digits(p + u) == Digits(p) && Alphas(p + u) == Alphas(p)
    ensures First(p + u) == First(p) && Rest(p + u) == Rest(p) + u
  {
    assert (p + u)[..Digits(p)] == p[..Digits(p)] && (p + u)[..Alphas(p)] == p[..Alphas(p)];
  }

  function Dots(n: nat): (r: string)
    ensures |r| == n && '-' !in r
  {
    if n == 0 then "" else "." + Dots(n - 1)
  }

  lemma {:induction false} DotsSeps(n: nat, t: string)
    requires t != "" && IsAlnum(t[0])
    ensures Seps(Dots(n) + t) == n && (Dots(n) + t)[n..] == t
  {
    if n > 0 {
      DotsSeps(n - 1, t);
      assert (Dots(n) + t)[1..] == Dots(n - 1) + t;
    } else {
      assert Dots(0) + t == t;
    }
  }

  lemma {:induction false} AllSeps(u: string)
    requires forall i :: 0 <= i < |u| ==> !IsAlnum(u[i])
    ensures Seps(u) == |u|
  {
    if u != "" { AllSeps(u[1..]); }
  }

  lemma {:induction false} TrimEnd(s: string) returns (p: string, u: string)
    requires EndsInSeparator(s)
    ensures s == p + u && u != "" && (p == "" || !EndsInSeparator(p)) && forall i :: 0 <= i < |u| ==> !IsAlnum(u[i])
  {
    var n := |s| - 1;
    if EndsInSeparator(s[..n]) {
      p, u := TrimEnd(s[..n]);
      u := u + [s[n]];
    } else {
      p, u := s[..n], [s[n]];
    }
  }

  /** Transitivity cannot be extended to any string with a trailing separator: each lies on a cycle. */
  lemma TrailingSeparatorBreaksOrder(s: string) returns (x: string, y: string)
    requires EndsInSeparator(s)
    ensures !EndsInSeparator(x) && !EndsInSeparator(y) && ('-' !in s ==> '-' !in x && '-' !in y)
    ensures RpmVerCmp(s, x) > 0 && RpmVerCmp(x, y) > 0 && RpmVerCmp(y, s) > 0
  {
    var p, u := TrimEnd(s);
    var k := |u|;
    var v, w := Dots(k + 1) + "a", Dots(1) + "1";
    x, y := p + v, p + w;
    DotsSeps(k + 1, "a");
    DotsSeps(1, "1");
    AllSeps(u);
    CommonBeginning(p, u, v, Compare(u, v));
    CommonBeginning(p, v, w, Compare(v, w));
    CommonBeginning(p, w, u, Compare(w, u));
  }

  ghost predicate OnCycle(s: string) {
    exists x, y :: !EndsInSeparator(x) && !EndsInSeparator(y)
      && RpmVerCmp(s, x) > 0 && RpmVerCmp(x, y) > 0 && RpmVerCmp(y, s) > 0
  }

  /** Exactly the strings that end in a separator lie on a cycle with well-formed ones. */
  lemma OrderedExactlyWithoutTrailingSeparator(s: string)
    ensures OnCycle(s) <==> EndsInSeparator(s)
  {
    if EndsInSeparator(s) {
      var x, y := TrailingSeparatorBreaksOrder(s);
      assert OnCycle(s);
    } else {
      forall x, y | !EndsInSeparator(x) && !EndsInSeparator(y) && RpmVerCmp(s, x) > 0 && RpmVerCmp(x, y) > 0
        ensures RpmVerCmp(y, s) <= 0
      {
        VerCmpAntisymmetric(s, x);
        VerCmpAntisymmetric(x, y);
        VerCmpTransitive(y, x, s);
      }
    }
  }

  // ---------- full versions ----------

  lemma {:induction false} DigitsOfEpoch(e: string, rest: string)
    requires AllDigits(e) && (rest == "" || !IsDigit(rest[0]))
    ensures Digits(e + rest) == |e|
  {
    if e == "" {
      assert e + rest == rest;
    } else {
      DigitsOfEpoch(e[1..], rest);
      assert (e + rest)[1..] == e[1..] + rest;
    }
  }

  lemma {:induction false} LastDashOf(v: string, r: string)
    requires forall i :: 0 <= i < |r| ==> r[i] != '-'
    ensures LastDash(v + "-" + r) == |v|
  {
    var s := v + "-" + r;
    if r == "" {
      assert s[|s| - 1] == '-';
    } else {
      LastDashOf(v, r[..|r| - 1]);
      assert s[..|s| - 1] == v + "-" + r[..|r| - 1];
    }
  }

  function PrintRelease(r: Option<string>): (s: string) {
    if r == None then "" else "-" + r.value
  }

  function PrintEpoch(e: Option<string>): (s: string) {
    if e == None then "" else e.value + ":"
  }

  function PrintEvr(e: Option<string>, v: string, r: Option<string>): (s: string) {
    PrintEpoch(e) + (v + PrintRelease(r))
  }

  /** An absent or empty epoch counts as "0". */
  function EpochOf(e: Option<string>): (s: string) {
    if e == None || e.value == "" then "0" else e.value
  }

  /** The text begins with digits, or nothing, and a colon. */
  predicate HasEpoch(s: string) {
    Digits(s) < |s| && s[Digits(s)] == ':'
  }

  /** The three parts can be told apart when written out: an epoch is made of digits, a release has no dash,
      and neither an epoch nor a release is found where there is none. */
  predicate Separable(e: Option<string>, v: string, r: Option<string>) {
    && (if e == None then !HasEpoch(v + PrintRelease(r)) else AllDigits(e.value))
    && (if r == None then '-' !in v else '-' !in r.value)
  }

  lemma SplitKeepsText(epoch: string, rest: string)
    ensures var r := SplitRelease(epoch, rest);
      && r.epoch == epoch && rest == r.version + PrintRelease(r.release)
      && if r.release == None then '-' !in r.version else '-' !in r.release.value
  {
    var k := LastDash(rest);
    if k < |rest| { assert rest == rest[..k] + ("-" + rest[k + 1..]); }
  }

  lemma JoinAt(s: string, n: nat)
    requires n < |s| && s[n] == ':'
    ensures s[..n] + ":" + s[n + 1..] == s
  {}

  /** What follows an epoch, and the epoch. */
  lemma EpochKeepsText(s: string)
    requires HasEpoch(s)
    ensures AllDigits(s[..Digits(s)]) && PrintEpoch(Some(s[..Digits(s)])) + s[Digits(s) + 1..] == s
    ensures ParseEvr(s) == SplitRelease(EpochOf(Some(s[..Digits(s)])), s[Digits(s) + 1..])
  {
    DigitsAre(s);
    JoinAt(s, Digits(s));
  }

  /** Every text is the parsed parts written out, and they are separable. */
  lemma ParseKeepsText(s: string) returns (e: Option<string>)
    ensures var r := ParseEvr(s);
      s == PrintEvr(e, r.version, r.release) && Separable(e, r.version, r.release) && r.epoch == EpochOf(e)
  {
    if HasEpoch(s) {
      e := Some(s[..Digits(s)]);
      EpochKeepsText(s);
      SplitKeepsText(EpochOf(e), s[Digits(s) + 1..]);
    } else {
      e := None;
      assert PrintEpoch(e) + s == s;
      SplitKeepsText("0", s);
    }
  }

  /** The release of a text is found again. */
  lemma SplitPrinted(epoch: string, v: string, r: Option<string>)
    requires if r == None then '-' !in v else '-' !in r.value
    ensures SplitRelease(epoch, v + PrintRelease(r)) == Evr(epoch, v, r)
  {
    var t := v + PrintRelease(r);
    if r == None {
      assert t == v;
    } else {
      assert t == v + "-" + r.value;
      LastDashOf(v, r.value);
      assert t[..|v|] == v && t[|v| + 1..] == r.value;
    }
  }

  lemma ParseAfterEpoch(e: string, rest: string)
    requires AllDigits(e)
    ensures ParseEvr(e + ":" + rest) == SplitRelease(EpochOf(Some(e)), rest)
  {
    var s, t := e + ":" + rest, ":" + rest;
    assert s == e + t;
    DigitsOfEpoch(e, t);
    assert s[..|e|] == e && s[|e| + 1..] == rest;
  }

  lemma ParseSeparable(e: Option<string>, v: string, r: Option<string>)
    requires Separable(e, v, r)
    ensures ParseEvr(PrintEvr(e, v, r)) == Evr(EpochOf(e), v, r)
  {
    var rest, s := v + PrintRelease(r), PrintEvr(e, v, r);
    SplitPrinted(EpochOf(e), v, r);
    if e == None {
      assert s == rest;
    } else {
      ParseAfterEpoch(e.value, rest);
    }
  }

  /** Texts with the same end begin alike. */
  lemma SameBeginning(e: Option<string>, f: Option<string>, t: string)
    requires PrintEpoch(e) + t == PrintEpoch(f) + t
    ensures e == f
  {
    var x, y := PrintEpoch(e), PrintEpoch(f);
    assert |x + t| == |y + t| && (x + t)[..|x|] == x && (y + t)[..|y|] == y;
    if e != None && f != None {
      assert x[..|x| - 1] == e.value && y[..|y| - 1] == f.value;
    }
  }

  /** Writing out the parts and parsing the text gives them back if and only if they are separable. */
  lemma ParsePrinted(e: Option<string>, v: string, r: Option<string>)
    ensures ParseEvr(PrintEvr(e, v, r)) == Evr(EpochOf(e), v, r) <==> Separable(e, v, r)
  {
    if Separable(e, v, r) {
      ParseSeparable(e, v, r);
    } else if ParseEvr(PrintEvr(e, v, r)) == Evr(EpochOf(e), v, r) {
      var f := ParseKeepsText(PrintEvr(e, v, r));
      SameBeginning(e, f, v + PrintRelease(r));
    }
  }

  /** There is only one way to write a text as separable parts. */
  lemma OneDecomposition(e: Option<string>, v: string, r: Option<string>, e': Option<string>, v': string,
                         r': Option<string>)
    requires Separable(e, v, r) && Separable(e', v', r') && PrintEvr(e, v, r) == PrintEvr(e', v', r')
    ensures e == e' && v == v' && r == r'
  {
    ParseSeparable(e, v, r);
    ParseSeparable(e', v', r');
    SameBeginning(e, e', v + PrintRelease(r));
  }

  lemma FullVerCmpAntisymmetric(a: Option<string>, b: Option<string>)
    ensures VerCmp(a, b) == -VerCmp(b, a)
  {
    if a != None && b != None {
      var x, y := ParseEvr(a.value), ParseEvr(b.value);
      VerCmpAntisymmetric(x.epoch, y.epoch);
      VerCmpAntisymmetric(x.version, y.version);
      if x.release != None && y.release != None { VerCmpAntisymmetric(x.release.value, y.release.value); }
    }
  }

  /** The version and, if there is one, the release do not end in a separator. */
  predicate WellEnded(s: string) {
    var r := ParseEvr(s);
    !EndsInSeparator(r.version) && (r.release != None ==> !EndsInSeparator(r.release.value))
  }

  /** Lexicographic by epoch, then version, then release; a missing release says nothing. */
  function CompareEvrTokens(a: Evr, b: Evr): (r: int) {
    var c := CompareTokens(Tokens(a.epoch), Tokens(b.epoch));
    if c != 0 then c
    else
      var d := CompareTokens(Tokens(a.version), Tokens(b.version));
      if d != 0 || a.release == None || b.release == None then d
      else CompareTokens(Tokens(a.release.value), Tokens(b.release.value))
  }

  lemma EpochEnds(s: string)
    ensures !EndsInSeparator(ParseEvr(s).epoch)
  {
    DigitsAre(s);
  }

  /** Comparing part by part gives the same if comparing each part does. */
  lemma PartsAgree(x: Evr, y: Evr)
    requires RpmVerCmp(x.epoch, y.epoch) == CompareTokens(Tokens(x.epoch), Tokens(y.epoch))
    requires RpmVerCmp(x.version, y.version) == CompareTokens(Tokens(x.version), Tokens(y.version))
    requires x.release != None && y.release != None ==>
      RpmVerCmp(x.release.value, y.release.value) == CompareTokens(Tokens(x.release.value), Tokens(y.release.value))
    ensures CompareEvr(x, y) == CompareEvrTokens(x, y)
  {}

  lemma EvrIsLexicographic(x: Evr, y: Evr)
    requires !EndsInSeparator(x.epoch) && !EndsInSeparator(x.version)
    requires x.release != None ==> !EndsInSeparator(x.release.value)
    requires !EndsInSeparator(y.epoch) && !EndsInSeparator(y.version)
    requires y.release != None ==> !EndsInSeparator(y.release.value)
    ensures CompareEvr(x, y) == CompareEvrTokens(x, y)
  {
    VerCmpIsLexicographic(x.epoch, y.epoch);
    VerCmpIsLexicographic(x.version, y.version);
    if x.release != None && y.release != None { VerCmpIsLexicographic(x.release.value, y.release.value); }
    PartsAgree(x, y);
  }

  lemma FullVerCmpIsLexicographic(a: string, b: string)
    requires WellEnded(a) && WellEnded(b)
    ensures VerCmp(Some(a), Some(b)) == CompareEvrTokens(ParseEvr(a), ParseEvr(b))
  {
    EpochEnds(a);
    EpochEnds(b);
    EvrIsLexicographic(ParseEvr(a), ParseEvr(b));
    assert a == b ==> CompareEvr(ParseEvr(a), ParseEvr(b)) == 0;
  }

  lemma TokensChain(xs: seq<Token>, ys: seq<Token>, zs: seq<Token>)
    requires CompareTokens(xs, ys) <= 0 && CompareTokens(ys, zs) <= 0
    ensures CompareTokens(xs, zs) <= 0
    ensures CompareTokens(xs, zs) == 0 ==> CompareTokens(xs, ys) == 0 && CompareTokens(ys, zs) == 0
  {
    TokensTransitive(xs, ys, zs);
    TokensAntisymmetric(xs, zs);
    TokensAntisymmetric(xs, ys);
    TokensAntisymmetric(ys, zs);
    if CompareTokens(xs, zs) == 0 {
      TokensTransitive(ys, zs, xs);
      TokensTransitive(zs, xs, ys);
    }
  }

  /** The order part by part is transitive, unless only the one between lacks a release. */
  lemma EvrChain(x: Evr, y: Evr, z: Evr)
    requires CompareEvrTokens(x, y) <= 0 && CompareEvrTokens(y, z) <= 0
    requires y.release != None || x.release == None || z.release == None
    ensures CompareEvrTokens(x, z) <= 0
  {
    TokensChain(Tokens(x.epoch), Tokens(y.epoch), Tokens(z.epoch));
    if CompareTokens(Tokens(x.epoch), Tokens(z.epoch)) == 0 {
      TokensChain(Tokens(x.version), Tokens(y.version), Tokens(z.version));
      if CompareTokens(Tokens(x.version), Tokens(z.version)) == 0 && x.release != None && z.release != None {
        TokensChain(Tokens(x.release.value), Tokens(y.release.value), Tokens(z.release.value));
      }
    }
  }

  predicate WellEndedIfAny(a: Option<string>) {
    a != None ==> WellEnded(a.value)
  }

  /** There is a version, and it has no release. */
  predicate LacksRelease(a: Option<string>) {
    a != None && ParseEvr(a.value).release == None
  }

  /** Transitive, unless the version between has no release and both others have one. */
  lemma FullVerCmpTransitive(a: Option<string>, b: Option<string>, c: Option<string>)
    requires WellEndedIfAny(a) && WellEndedIfAny(b) && WellEndedIfAny(c)
    requires !LacksRelease(b) || LacksRelease(a) || LacksRelease(c)
    requires VerCmp(a, b) <= 0 && VerCmp(b, c) <= 0
    ensures VerCmp(a, c) <= 0
  {
    if a != None && b != None && c != None {
      FullVerCmpIsLexicographic(a.value, b.value);
      FullVerCmpIsLexicographic(b.value, c.value);
      FullVerCmpIsLexicographic(a.value, c.value);
      EvrChain(ParseEvr(a.value), ParseEvr(b.value), ParseEvr(c.value));
    }
  }

  // ---------- exactly where the order of full versions breaks ----------

  /** Versions of one epoch compare by version, and then by release. */
  lemma SameEpoch(a: string, b: string, c: int)
    requires ParseEvr(a).epoch == ParseEvr(b).epoch && c != 0
    requires var x, y := ParseEvr(a), ParseEvr(b);
      || RpmVerCmp(x.version, y.version) == c
      || (x.version == y.version && x.release != None && y.release != None
        && RpmVerCmp(x.release.value, y.release.value) == c)
    ensures VerCmp(Some(a), Some(b)) == c
  {
    var x, y := ParseEvr(a), ParseEvr(b);
    VerCmpAntisymmetric(x.epoch, x.epoch);
    VerCmpAntisymmetric(x.version, x.version);
    if x.release != None { VerCmpAntisymmetric(x.release.value, x.release.value); }
  }

  lemma WithParts(e: string, v: string, r: string) returns (s: string)
    requires e != "" && AllDigits(e) && '-' !in r && !EndsInSeparator(v) && !EndsInSeparator(r)
    ensures ParseEvr(s) == Evr(e, v, Some(r)) && WellEnded(s)
  {
    s := PrintEvr(Some(e), v, Some(r));
    ParseSeparable(Some(e), v, Some(r));
  }

  /** A trailing separator in the version or in the release puts a full version on a cycle. */
  lemma FullTrailingSeparator(s: string) returns (x: string, y: string)
    requires !WellEnded(s)
    ensures WellEnded(x) && WellEnded(y)
    ensures VerCmp(Some(s), Some(x)) > 0 && VerCmp(Some(x), Some(y)) > 0 && VerCmp(Some(y), Some(s)) > 0
  {
    var e := ParseKeepsText(s);
    var r := ParseEvr(s);
    if EndsInSeparator(r.version) {
      var v, w := TrailingSeparatorBreaksOrder(r.version);
      x := WithParts(r.epoch, v, "1");
      y := WithParts(r.epoch, w, "1");
      SameEpoch(s, x, RpmVerCmp(r.version, v));
      SameEpoch(x, y, RpmVerCmp(v, w));
      SameEpoch(y, s, RpmVerCmp(w, r.version));
    } else {
      var v, w := TrailingSeparatorBreaksOrder(r.release.value);
      x := WithParts(r.epoch, r.version, v);
      y := WithParts(r.epoch, r.version, w);
      SameEpoch(s, x, RpmVerCmp(r.release.value, v));
      SameEpoch(x, y, RpmVerCmp(v, w));
      SameEpoch(y, s, RpmVerCmp(w, r.release.value));
    }
  }

  ghost predicate FullOnCycle(s: string) {
    exists x, y :: WellEnded(x) && WellEnded(y)
      && VerCmp(Some(s), Some(x)) > 0 && VerCmp(Some(x), Some(y)) > 0 && VerCmp(Some(y), Some(s)) > 0
  }

  /** Well-ended versions are on no cycle, even without releases. */
  lemma NoCycle(s: string, x: string, y: string)
    requires WellEnded(s) && WellEnded(x) && WellEnded(y) && VerCmp(Some(s), Some(x)) > 0
    requires VerCmp(Some(x), Some(y)) > 0
    ensures VerCmp(Some(y), Some(s)) <= 0
  {
    FullVerCmpAntisymmetric(Some(s), Some(x));
    FullVerCmpAntisymmetric(Some(x), Some(y));
    FullVerCmpAntisymmetric(Some(y), Some(s));
    if VerCmp(Some(y), Some(s)) > 0 {
      if !LacksRelease(Some(x)) || LacksRelease(Some(y)) || LacksRelease(Some(s)) {
        FullVerCmpTransitive(Some(y), Some(x), Some(s));
      } else {
        FullVerCmpTransitive(Some(s), Some(y), Some(x));
      }
    }
  }

  /** Exactly the full versions with a trailing separator in a part lie on a cycle with well-ended ones. */
  lemma FullOrderedExactlyWhenWellEnded(s: string)
    ensures FullOnCycle(s) <==> !WellEnded(s)
  {
    if WellEnded(s) {
      forall x, y | WellEnded(x) && WellEnded(y) && VerCmp(Some(s), Some(x)) > 0 && VerCmp(Some(x), Some(y)) > 0
        ensures VerCmp(Some(y), Some(s)) <= 0
      {
        NoCycle(s, x, y);
      }
    } else {
      var x, y := FullTrailingSeparator(s);
      assert FullOnCycle(s);
    }
  }

  /** Comparison is transitive through b, whatever well-ended or missing versions it is compared with. */
  ghost predicate TransitiveThrough(b: Option<string>) {
    forall a, c :: WellEndedIfAny(a) && WellEndedIfAny(c) && VerCmp(a, b) <= 0 && VerCmp(b, c) <= 0 ==>
      VerCmp(a, c) <= 0
  }

  lemma NotThrough(b: string, a: string, c: string)
    requires WellEnded(a) && WellEnded(c) && VerCmp(Some(a), Some(b)) <= 0 && VerCmp(Some(b), Some(c)) <= 0
    requires VerCmp(Some(a), Some(c)) > 0
    ensures !TransitiveThrough(Some(b))
  {
    assert WellEndedIfAny(Some(a)) && WellEndedIfAny(Some(c));
  }

  /** Versions can be compared through one exactly when it is missing, or well ended and carries a release. */
  lemma TransitiveExactlyWithRelease(b: Option<string>)
    ensures TransitiveThrough(b) <==> WellEndedIfAny(b) && !LacksRelease(b)
  {
    if WellEndedIfAny(b) && !LacksRelease(b) {
      forall a, c | WellEndedIfAny(a) && WellEndedIfAny(c) && VerCmp(a, b) <= 0 && VerCmp(b, c) <= 0
        ensures VerCmp(a, c) <= 0
      {
        FullVerCmpTransitive(a, b, c);
      }
    } else if !WellEndedIfAny(b) {
      var x, y := FullTrailingSeparator(b.value);
      FullVerCmpAntisymmetric(Some(x), b);
      FullVerCmpAntisymmetric(b, Some(y));
      NotThrough(b.value, x, y);
    } else {
      var a, c := NoReleaseWitness(b.value);
      NotThrough(b.value, a, c);
    }
  }

  lemma NoReleaseWitness(b: string) returns (a: string, c: string)
    requires WellEnded(b) && ParseEvr(b).release == None
    ensures WellEnded(a) && WellEnded(c)
    ensures VerCmp(Some(a), Some(b)) == 0 && VerCmp(Some(b), Some(c)) == 0 && VerCmp(Some(a), Some(c)) > 0
  {
    var two, one := "2", "1";
    assert AllDigits(two) && AllDigits(one);
    DigitPair(two, one);
    a, c := b + "-" + two, b + "-" + one;
    ReleaseAdded(b, two);
    ReleaseAdded(b, one);
  }

  /** Adding a release to a version without one changes nothing else, and compares equal. */
  lemma ReleaseAdded(b: string, r: string)
    requires WellEnded(b) && ParseEvr(b).release == None && |r| == 1 && AllDigits(r)
    ensures ParseEvr(b + "-" + r) == ParseEvr(b).(release := Some(r)) && WellEnded(b + "-" + r)
    ensures VerCmp(Some(b), Some(b + "-" + r)) == 0 && VerCmp(Some(b + "-" + r), Some(b)) == 0
  {
    ParseAdded(b, r);
  }

  lemma ParseAdded(b: string, r: string)
    requires ParseEvr(b).release == None && |r| == 1 && r[0] != '-'
    ensures ParseEvr(b + "-" + r) == ParseEvr(b).(release := Some(r))
  {
    var s, n, t := b + "-" + r, Digits(b), "-" + r;
    assert s == b + t && t[0] == '-';
    RunsAppend(b, t);
    if n < |b| && b[n] == ':' {
      var rest := b[n + 1..];
      assert s[..n] == b[..n] && s[n + 1..] == rest + "-" + r;
      NoDash(rest, r);
    } else {
      assert n < |b| ==> s[n] == b[n];
      NoDash(b, r);
    }
  }

  lemma NoDash(rest: string, r: string)
    requires LastDash(rest) == |rest| && |r| == 1 && r[0] != '-'
    ensures forall epoch :: SplitRelease(epoch, rest + "-" + r) == Evr(epoch, rest, Some(r))
    ensures forall epoch :: SplitRelease(epoch, rest) == Evr(epoch, rest, None)
  {
    LastDashOf(rest, r);
    var s := rest + "-" + r;
    assert s[..|rest|] == rest && s[|rest| + 1..] == r;
  }

  lemma DigitPair(a: string, b: string)
    requires |a| == 1 && |b| == 1 && AllDigits(a) && AllDigits(b) && a[0] > b[0]
    ensures RpmVerCmp(a, b) > 0
  {
    assert Seps(a) == 0 && Seps(b) == 0 && Digits(a) == 1 && Digits(b) == 1;
    assert a[..1] == a && b[..1] == b && a[0..] == a && b[0..] == b;
    assert Compare(a, b) == CompareHere(a, b);
    CompareDigitsIsNumeric(a, b);
    assert a[..0] == "" && b[..0] == "";
    assert Value(a) == Digit(a[0]) && Value(b) == Digit(b[0]);
  }
}
