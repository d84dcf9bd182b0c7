/** Base64 (lib/libalpm/base64.c), section 4 of RFC 4648: the decoder, and the encoder it undoes. */
module Base64 {
  type byte = x: int | 0 <= x < 256

  const LF: byte := 10
  const CR: byte := 13
  const PAD: byte := 61
  const INVALID: nat := 127
  const WORD: nat := 0x1_0000_0000

  const ERR_BUFFER_TOO_SMALL := -0x0010
  const ERR_INVALID_CHARACTER := -0x0012

  /** The decoding table: the value of a digit, 64 for the padding, 127 for everything else. */
  function Dec(c: byte): (v: nat)
    ensures v <= 64 || v == INVALID
  {
    if 65 <= c <= 90 then c - 65
    else if 97 <= c <= 122 then c - 71
    else if 48 <= c <= 57 then c + 4
    else if c == 43 then 62
    else if c == 47 then 63
    else if c == PAD then 64
    else INVALID
  }

  /** The encoding table. */
  function Enc(v: nat): (c: byte)
    requires v < 64
    ensures Dec(c) == v
  {
    if v < 26 then v + 65 else if v < 52 then v + 71 else if v < 62 then v - 4 else if v == 62 then 43 else 47
  }

  // ---------- encoding ----------

  /** The four digits of three bytes. */
  function Digits(b0: byte, b1: byte, b2: byte): (e: seq<byte>)
    ensures |e| == 4
  {
    [Enc(b0 / 4), Enc(b0 % 4 * 16 + b1 / 16), Enc(b1 % 16 * 4 + b2 / 64), Enc(b2 % 64)]
  }

  function Quad(c0: byte, c1: byte, c2: byte, c3: byte, rest: seq<byte>): (e: seq<byte>) {
    [c0] + ([c1] + ([c2] + ([c3] + rest)))
  }

  /** The digits of three bytes, of which only the first k are there. */
  function EncodeGroup(b0: byte, b1: byte, b2: byte, k: nat, rest: seq<byte>): (e: seq<byte>) {
    var d := Digits(b0, b1, b2);
    Quad(d[0], d[1], if k < 2 then PAD else d[2], if k < 3 then PAD else d[3], rest)
  }

  function Encode(b: seq<byte>): (e: seq<byte>) {
    if b == [] then []
    else if |b| == 1 then EncodeGroup(b[0], 0, 0, 1, [])
    else if |b| == 2 then EncodeGroup(b[0], b[1], 0, 2, [])
    else EncodeGroup(b[0], b[1], b[2], 3, Encode(b[3..]))
  }

  // ---------- the first pass ----------

  datatype Count = Bad | Good(n: nat)

  /** How many characters count, given that j padding characters came before. */
  function Scan(s: seq<byte>, j: nat): (c: Count) {
    if s == [] then Good(0)
    else if |s| >= 2 && s[0] == CR && s[1] == LF then Scan(s[1..], j)
    else if s[0] == LF then Scan(s[1..], j)
    else
      var k := if s[0] == PAD then j + 1 else j;
      if k > 2 || Dec(s[0]) == INVALID || (Dec(s[0]) < 64 && k != 0) then Bad
      else
        var c := Scan(s[1..], k);
        if c.Good? then Good(c.n + 1) else Bad
  }

  /** The alphabet of section 4 of RFC 4648, in four parts. */
  const UPPER := "ABCDEFGHIJKLMNOPQRSTUVWXYZ"
  const LOWER := "abcdefghijklmnopqrstuvwxyz"
  const NUMERALS := "0123456789"
  const ALPHABET := UPPER + LOWER + NUMERALS + "+/"

  lemma Uppers(v: nat)
    requires v < 26
    ensures |UPPER| == 26 && UPPER[v] as int == 65 + v
  {
    match v
    case 0 => case 1 => case 2 => case 3 => case 4 => case 5 => case 6 => case 7 => case 8 => case 9 => case 10 =>
    case 11 => case 12 => case 13 => case 14 => case 15 => case 16 => case 17 => case 18 => case 19 => case 20 =>
    case 21 => case 22 => case 23 => case 24 => case 25 =>
    case _ =>
  }

  lemma Lowers(v: nat)
    requires v < 26
    ensures |LOWER| == 26 && LOWER[v] as int == 97 + v
  {
    match v
    case 0 => case 1 => case 2 => case 3 => case 4 => case 5 => case 6 => case 7 => case 8 => case 9 => case 10 =>
    case 11 => case 12 => case 13 => case 14 => case 15 => case 16 => case 17 => case 18 => case 19 => case 20 =>
    case 21 => case 22 => case 23 => case 24 => case 25 =>
    case _ =>
  }

  lemma Numerals(v: nat)
    requires v < 10
    ensures |NUMERALS| == 10 && NUMERALS[v] as int == 48 + v
  {
    match v
    case 0 => case 1 => case 2 => case 3 => case 4 => case 5 => case 6 => case 7 => case 8 => case 9 =>
    case _ =>
  }

  lemma Sizes()
    ensures |UPPER| == 26 && |LOWER| == 26 && |NUMERALS| == 10 && |ALPHABET| == 64
  {
    Uppers(0);
    Lowers(0);
    Numerals(0);
  }

  lemma Part(u: string, l: string, n: string, p: string, v: nat)
    requires |u| == 26 && |l| == 26 && |n| == 10 && |p| == 2 && v < 64
    ensures (u + l + n + p)[v] ==
            (if v < 26 then u[v] else if v < 52 then l[v - 26] else if v < 62 then n[v - 52] else p[v - 62])
  {}

  lemma AlphabetAt(v: nat)
    requires v < 64
    ensures |ALPHABET| == 64 && ALPHABET[v] as int == Enc(v)
  {
    Sizes();
    Part(UPPER, LOWER, NUMERALS, "+/", v);
    if v < 26 {
      Uppers(v);
    } else if v < 52 {
      Lowers(v - 26);
    } else if v < 62 {
      Numerals(v - 52);
    }
  }

  /** Both tables are those of the alphabet. */
  lemma TablesAgree(v: nat, c: byte)
    requires v < 64
    ensures |ALPHABET| == 64 && Enc(v) == ALPHABET[v] as int && (Dec(c) == v <==> c == ALPHABET[v] as int)
  {
    AlphabetAt(v);
  }

  ghost predicate InAlphabet(c: byte) {
    exists v :: 0 <= v < |ALPHABET| && ALPHABET[v] as int == c
  }

  lemma DigitsAreAlphabet(c: byte)
    ensures InAlphabet(c) <==> Dec(c) < 64
  {
    Sizes();
    forall v | 0 <= v < |ALPHABET| ensures Dec(c) == v <==> ALPHABET[v] as int == c { TablesAgree(v, c); }
    if Dec(c) < 64 { assert ALPHABET[Dec(c)] as int == c; }
  }

  /** The text without line ends: newlines, and carriage returns right before one. */
  function Unfolded(s: seq<byte>): (t: seq<byte>) {
    if s == [] then []
    else if s[0] == LF || (|s| >= 2 && s[0] == CR && s[1] == LF) then Unfolded(s[1..])
    else [s[0]] + Unfolded(s[1..])
  }

  /** Characters of the alphabet, and at most j padding characters after them. */
  ghost predicate Proper(t: seq<byte>, j: int) {
    && (forall i :: 0 <= i < |t| ==> InAlphabet(t[i]) || t[i] == PAD)
    && (forall i, k :: 0 <= i < k < |t| && t[i] == PAD ==> t[k] == PAD)
    && (forall i :: 0 <= i < |t| && t[i] == PAD ==> |t| - i <= j)
  }

  ghost predicate Padded(t: seq<byte>) {
    forall i :: 0 <= i < |t| ==> t[i] == PAD
  }

  /** The first pass accepts exactly the proper texts, and counts their characters. */
  lemma AcceptsExactly(s: seq<byte>)
    ensures Scan(s, 0).Good? <==> Proper(Unfolded(s), 2)
    ensures Scan(s, 0).Good? ==> Scan(s, 0).n == |Unfolded(s)|
  {
    AcceptsFrom(s, 0);
  }

  lemma {:induction false} AcceptsFrom(s: seq<byte>, j: nat)
    requires j <= 2
    ensures Scan(s, j).Good? <==> Proper(Unfolded(s), 2 - j) && (j > 0 ==> Padded(Unfolded(s)))
    ensures Scan(s, j).Good? ==> Scan(s, j).n == |Unfolded(s)|
  {
    if s == [] {
    } else if s[0] == LF || (|s| >= 2 && s[0] == CR && s[1] == LF) {
      AcceptsFrom(s[1..], j);
    } else {
      DigitsAreAlphabet(s[0]);
      var t, rest := Unfolded(s), Unfolded(s[1..]);
      assert t == [s[0]] + rest;
      if s[0] == PAD {
        if j < 2 { AcceptsFrom(s[1..], j + 1); }
        ProperPad(t, rest, 2 - j);
      } else {
        AcceptsFrom(s[1..], j);
        ProperDigit(t, rest, 2 - j);
      }
    }
  }

  lemma ProperPad(t: seq<byte>, rest: seq<byte>, j: int)
    requires t == [PAD] + rest && 0 <= j <= 2
    ensures Proper(t, j) <==> j > 0 && Proper(rest, j - 1) && Padded(rest)
    ensures Padded(t) <==> Padded(rest)
  {
    assert forall i :: 0 <= i < |rest| ==> t[i + 1] == rest[i];
    if Proper(t, j) {
      forall i | 0 <= i < |rest| ensures rest[i] == PAD { assert t[0] == PAD && t[i + 1] == rest[i]; }
    }
    if j > 0 && Proper(rest, j - 1) && Padded(rest) {
      assert |rest| > 0 ==> rest[0] == PAD && |rest| - 0 <= j - 1;
    }
  }

  lemma ProperDigit(t: seq<byte>, rest: seq<byte>, j: int)
    requires |t| == |rest| + 1 && t[1..] == rest && t[0] != PAD
    ensures Proper(t, j) <==> InAlphabet(t[0]) && Proper(rest, j)
    ensures !Padded(t)
  {
    assert forall i :: 0 <= i < |rest| ==> t[i + 1] == rest[i];
    assert Proper(t, j) ==> Proper(rest, j) by {
      if Proper(t, j) {
        forall i | 0 <= i < |rest| && rest[i] == PAD ensures |rest| - i <= j { assert t[i + 1] == PAD; }
        forall i, k | 0 <= i < k < |rest| && rest[i] == PAD ensures rest[k] == PAD { assert t[i + 1] == PAD; }
        forall i | 0 <= i < |rest| ensures InAlphabet(rest[i]) || rest[i] == PAD { assert rest[i] == t[i + 1]; }
      }
    }
  }

  // ---------- the second pass ----------

  /** The three bytes that four digits stand for. */
  function Bytes(v0: nat, v1: nat, v2: nat, v3: nat): (b: seq<byte>)
    requires v0 < 64 && v1 < 64 && v2 < 64 && v3 < 64
    ensures |b| == 3
  {
    [v0 * 4 + v1 / 16, v1 % 16 * 16 + v2 / 4, v2 % 4 * 64 + v3]
  }

  /** What has been written, the digits of the current group, and the padding still possible. */
  datatype State = State(out: seq<byte>, group: seq<nat>, j: int)

  const START := State([], [], 3)

  ghost predicate Valid(st: State) {
    |st.group| < 4 && forall k :: 0 <= k < |st.group| ==> st.group[k] < 64
  }

  /** What a character means to the second pass. */
  datatype Symbol = Blank | Digit(v: nat) | Padding

  function Meaning(c: byte): (y: Symbol)
    ensures y.Digit? ==> y.v < 64
  {
    if c == CR || c == LF then Blank else if Dec(c) == 64 then Padding else Digit(Dec(c) % 64)
  }

  function Meanings(s: seq<byte>): (ys: seq<Symbol>)
    ensures |ys| == |s| && AllSmall(ys)
  {
    if s == [] then [] else [Meaning(s[0])] + Meanings(s[1..])
  }

  ghost predicate AllSmall(ys: seq<Symbol>) {
    forall k :: 0 <= k < |ys| ==> ys[k].Digit? ==> ys[k].v < 64
  }

  /** As many of the three bytes as j says. */
  function Some(b: seq<byte>, j: int): (r: seq<byte>)
    requires |b| == 3
  {
    if j <= 0 then [] else if j >= 3 then b else b[..j]
  }

  function Step(st: State, y: Symbol): (r: State)
    requires Valid(st) && (y.Digit? ==> y.v < 64)
    ensures Valid(r) && st.out <= r.out
  {
    if y == Blank then st
    else
      var j, v := if y == Padding then st.j - 1 else st.j, if y == Padding then 0 else y.v;
      if |st.group| == 3 then State(st.out + Some(Bytes(st.group[0], st.group[1], st.group[2], v), j), [], j)
      else State(st.out, st.group + [v], j)
  }

  function Run(st: State, ys: seq<Symbol>): (r: State)
    requires Valid(st) && AllSmall(ys)
    ensures Valid(r) && st.out <= r.out
    decreases |ys|
  {
    if ys == [] then st else Run(Step(st, ys[0]), ys[1..])
  }

  /** What the second pass writes for these characters. */
  function Decoded(s: seq<byte>): (out: seq<byte>) {
    Run(START, Meanings(s)).out
  }

  // ---------- decoding undoes encoding ----------

  lemma BytesOfDigits(b0: byte, b1: byte, b2: byte)
    ensures Bytes(b0 / 4, b0 % 4 * 16 + b1 / 16, b1 % 16 * 4 + b2 / 64, b2 % 64) == [b0, b1, b2]
  {}

  lemma RunOne(st: State, y: Symbol, rest: seq<Symbol>)
    requires Valid(st) && AllSmall(rest) && (y.Digit? ==> y.v < 64)
    ensures AllSmall([y] + rest) && Run(st, [y] + rest) == Run(Step(st, y), rest)
  {
    assert ([y] + rest)[1..] == rest;
  }

  function Value(y: Symbol): (v: nat) {
    if y.Digit? then y.v else 0
  }

  function Pads(y: Symbol): (n: nat) {
    if y == Padding then 1 else 0
  }

  function Quad2(y0: Symbol, y1: Symbol, y2: Symbol, y3: Symbol, rest: seq<Symbol>): (e: seq<Symbol>) {
    [y0] + ([y1] + ([y2] + ([y3] + rest)))
  }

  /** A character that does not complete its group. */
  lemma RunDigit(out: seq<byte>, j: int, group: seq<nat>, y: Symbol, group': seq<nat>, rest: seq<Symbol>, r: State)
    requires Valid(State(out, group, j)) && |group| < 3 && IsSmall(y) && AllSmall(rest) && group' == group + [Value(y)]
    requires Valid(State(out, group', j - Pads(y))) && Run(State(out, group', j - Pads(y)), rest) == r
    ensures AllSmall([y] + rest) && Run(State(out, group, j), [y] + rest) == r
  {
    RunOne(State(out, group, j), y, rest);
  }

  /** A character that completes its group. */
  lemma RunFourth(out: seq<byte>, j: int, v0: nat, v1: nat, v2: nat, y: Symbol, rest: seq<Symbol>)
    requires v0 < 64 && v1 < 64 && v2 < 64 && IsSmall(y) && AllSmall(rest)
    ensures AllSmall([y] + rest) && Run(State(out, [v0, v1, v2], j), [y] + rest)
      == Run(State(out + Some(Bytes(v0, v1, v2, Value(y)), j - Pads(y)), [], j - Pads(y)), rest)
  {
    RunOne(State(out, [v0, v1, v2], j), y, rest);
  }

  /** A symbol that stands for a digit. */
  ghost predicate IsSmall(y: Symbol) {
    y != Blank && (y.Digit? ==> y.v < 64)
  }

  /** The second half of a group. */
  lemma RunHalf(out: seq<byte>, j: int, v0: nat, v1: nat, y2: Symbol, y3: Symbol, rest: seq<Symbol>, k: int)
    requires v0 < 64 && v1 < 64 && IsSmall(y2) && IsSmall(y3) && AllSmall(rest) && k == j - Pads(y2) - Pads(y3)
    ensures AllSmall([y2] + ([y3] + rest)) && Run(State(out, [v0, v1], j), [y2] + ([y3] + rest))
      == Run(State(out + Some(Bytes(v0, v1, Value(y2), Value(y3)), k), [], k), rest)
  {
    var r := Run(State(out + Some(Bytes(v0, v1, Value(y2), Value(y3)), k), [], k), rest);
    RunFourth(out, j - Pads(y2), v0, v1, Value(y2), y3, rest);
    RunDigit(out, j, [v0, v1], y2, [v0, v1, Value(y2)], [y3] + rest, r);
  }

  /** Four characters from the start of a group. */
  lemma RunGroup(out: seq<byte>, j: int, y0: Symbol, y1: Symbol, y2: Symbol, y3: Symbol, rest: seq<Symbol>, k: int)
    requires IsSmall(y0) && IsSmall(y1) && IsSmall(y2) && IsSmall(y3) && AllSmall(rest)
    requires k == j - Pads(y0) - Pads(y1) - Pads(y2) - Pads(y3)
    ensures AllSmall(Quad2(y0, y1, y2, y3, rest)) && Run(State(out, [], j), Quad2(y0, y1, y2, y3, rest))
      == Run(State(out + Some(Bytes(Value(y0), Value(y1), Value(y2), Value(y3)), k), [], k), rest)
  {
    var v0, v1 := Value(y0), Value(y1);
    var r := Run(State(out + Some(Bytes(v0, v1, Value(y2), Value(y3)), k), [], k), rest);
    var last := [y2] + ([y3] + rest);
    RunHalf(out, j - Pads(y0) - Pads(y1), v0, v1, y2, y3, rest, k);
    RunFirst(out, j, y0, y1, last, r);
  }

  lemma RunFirst(out: seq<byte>, j: int, y0: Symbol, y1: Symbol, rest: seq<Symbol>, r: State)
    requires IsSmall(y0) && IsSmall(y1) && AllSmall(rest)
    requires Run(State(out, [Value(y0), Value(y1)], j - Pads(y0) - Pads(y1)), rest) == r
    ensures AllSmall([y0] + ([y1] + rest)) && Run(State(out, [], j), [y0] + ([y1] + rest)) == r
  {
    RunDigit(out, j - Pads(y0), [Value(y0)], y1, [Value(y0), Value(y1)], rest, r);
    RunDigit(out, j, [], y0, [Value(y0)], [y1] + rest, r);
  }

  lemma MeaningOfDigit(v: nat)
    requires v < 64
    ensures Meaning(Enc(v)) == Digit(v)
  {}

  lemma MeaningsCons(c: byte, rest: seq<byte>)
    ensures Meanings([c] + rest) == [Meaning(c)] + Meanings(rest)
  {
    assert ([c] + rest)[1..] == rest;
  }

  lemma MeaningsQuad(c0: byte, c1: byte, c2: byte, c3: byte, rest: seq<byte>)
    ensures Meanings(Quad(c0, c1, c2, c3, rest))
      == Quad2(Meaning(c0), Meaning(c1), Meaning(c2), Meaning(c3), Meanings(rest))
  {
    MeaningsCons(c3, rest);
    MeaningsCons(c2, [c3] + rest);
    MeaningsCons(c1, [c2] + ([c3] + rest));
    MeaningsCons(c0, [c1] + ([c2] + ([c3] + rest)));
  }

  /** The four symbols of a group of which k bytes are there. */
  lemma GroupMeans(b0: byte, b1: byte, b2: byte, k: nat, rest: seq<byte>)
    ensures Meanings(EncodeGroup(b0, b1, b2, k, rest)) == Quad2(Digit(b0 / 4), Digit(b0 % 4 * 16 + b1 / 16),
      if k < 2 then Padding else Digit(b1 % 16 * 4 + b2 / 64), if k < 3 then Padding
        else Digit(b2 % 64), Meanings(rest))
  {
    var d := Digits(b0, b1, b2);
    MeaningsQuad(d[0], d[1], if k < 2 then PAD else d[2], if k < 3 then PAD else d[3], rest);
    MeaningOfDigit(b0 / 4);
    MeaningOfDigit(b0 % 4 * 16 + b1 / 16);
    MeaningOfDigit(b1 % 16 * 4 + b2 / 64);
    MeaningOfDigit(b2 % 64);
  }

  /** A group of digits, of which the last 3 - k are padding, writes k bytes. */
  lemma RunDigits(out: seq<byte>, b0: byte, b1: byte, b2: byte, k: nat, rest: seq<byte>)
    requires 1 <= k <= 3 && (k < 3 ==> b2 == 0) && (k < 2 ==> b1 == 0)
    ensures Run(State(out, [], 3), Meanings(EncodeGroup(b0, b1, b2, k, rest)))
      == Run(State(out + [b0, b1, b2][..k], [], k), Meanings(rest))
  {
    var y0, y1 := Digit(b0 / 4), Digit(b0 % 4 * 16 + b1 / 16);
    var y2 := if k < 2 then Padding else Digit(b1 % 16 * 4 + b2 / 64);
    var y3 := if k < 3 then Padding else Digit(b2 % 64);
    GroupMeans(b0, b1, b2, k, rest);
    RunGroup(out, 3, y0, y1, y2, y3, Meanings(rest), k);
    BytesOfDigits(b0, b1, b2);
    assert Some([b0, b1, b2], k) == [b0, b1, b2][..k];
  }

  lemma Firsts(b: seq<byte>, b1: byte, b2: byte)
    requires b != [] && (|b| >= 2 ==> b1 == b[1]) && (|b| >= 3 ==> b2 == b[2])
    ensures |b| == 1 ==> [b[0], b1, b2][..1] == b
    ensures |b| == 2 ==> [b[0], b1, b2][..2] == b
    ensures |b| >= 3 ==> [b[0], b1, b2][..3] == b[..3]
  {}

  lemma RunLast(out: seq<byte>, b: seq<byte>)
    requires 1 <= |b| <= 2
    ensures Run(State(out, [], 3), Meanings(Encode(b))).out == out + b
  {
    if |b| == 1 {
      Firsts(b, 0, 0);
      RunDigits(out, b[0], 0, 0, 1, []);
    } else {
      Firsts(b, b[1], 0);
      RunDigits(out, b[0], b[1], 0, 2, []);
    }
  }

  lemma RunThree(out: seq<byte>, b: seq<byte>)
    requires |b| >= 3
    ensures Run(State(out, [], 3), Meanings(Encode(b))) == Run(State(out + b[..3], [], 3), Meanings(Encode(b[3..])))
  {
    Firsts(b, b[1], b[2]);
    RunDigits(out, b[0], b[1], b[2], 3, Encode(b[3..]));
  }

  /** Running over the encoding of bytes writes the bytes. */
  lemma {:induction false} RunEncoded(out: seq<byte>, b: seq<byte>)
    ensures Run(State(out, [], 3), Meanings(Encode(b))).out == out + b
    decreases |b|
  {
    if 1 <= |b| <= 2 {
      RunLast(out, b);
    } else if |b| >= 3 {
      RunThree(out, b);
      RunEncoded(out + b[..3], b[3..]);
      assert out + b[..3] + b[3..] == out + b;
    }
  }

  // ---------- the bits of a group ----------

  function Shift(x: nat, v: nat): (r: nat)
    ensures r < WORD
  {
    (x * 64 + v) % WORD
  }

  lemma Shift1(x: nat, v: nat)
    requires v < 64
    ensures (x * 64 + v) % WORD % 64 == v
  {
    var t := (x * 64 + v) / WORD;
    assert (x * 64 + v) % WORD == 64 * (x - 0x400_0000 * t) + v;
  }

  lemma Shift2(x: nat, v: nat, y: nat)
    requires v < 64 && x % 64 == y
    ensures (x * 64 + v) % WORD % 0x1000 == y * 64 + v
  {
    var q, t := x / 64, (x * 64 + v) / WORD;
    assert (x * 64 + v) % WORD == 0x1000 * (q - 0x10_0000 * t) + (y * 64 + v);
  }

  lemma Shift3(x: nat, v: nat, y: nat)
    requires v < 64 && x % 0x1000 == y
    ensures (x * 64 + v) % WORD % 0x4_0000 == y * 64 + v
  {
    var q, t := x / 0x1000, (x * 64 + v) / WORD;
    assert (x * 64 + v) % WORD == 0x4_0000 * (q - 0x4000 * t) + (y * 64 + v);
  }

  lemma Shift4(x: nat, v: nat, y: nat)
    requires v < 64 && x % 0x4_0000 == y
    ensures (x * 64 + v) % WORD % 0x100_0000 == y * 64 + v
  {
    var q, t := x / 0x4_0000, (x * 64 + v) / WORD;
    assert (x * 64 + v) % WORD == 0x100_0000 * (q - 0x100 * t) + (y * 64 + v);
  }

  /** The number that digits stand for. */
  function Number(g: seq<nat>): (n: nat) {
    if g == [] then 0 else Number(g[..|g| - 1]) * 64 + g[|g| - 1]
  }

  function Range(n: nat): (m: nat)
    requires n <= 4
    ensures m > 0
  {
    if n == 0 then 1 else if n == 1 then 64 else if n == 2 then 0x1000 else if n == 3 then 0x4_0000 else 0x100_0000
  }

  /** The low bits of x hold the digits of the current group. */
  ghost predicate Holds(x: nat, g: seq<nat>) {
    |g| <= 4 && x % Range(|g|) == Number(g)
  }

  lemma HoldsMore(x: nat, g: seq<nat>, v: nat)
    requires |g| < 4 && Holds(x, g) && v < 64
    ensures Holds(Shift(x, v), g + [v])
  {
    assert (g + [v])[..|g|] == g;
    if |g| == 0 { Shift1(x, v); }
    else if |g| == 1 { Shift2(x, v, Number(g)); }
    else if |g| == 2 { Shift3(x, v, Number(g)); }
    else { Shift4(x, v, Number(g)); }
  }

  lemma SameNumber(v0: nat, v1: nat, v2: nat, v3: nat)
    requires v0 < 64 && v1 < 64 && v2 < 64 && v3 < 64
    ensures ((v0 * 64 + v1) * 64 + v2) * 64 + v3
      == (v0 * 4 + v1 / 16) * 0x1_0000 + (v1 % 16 * 16 + v2 / 4) * 0x100 + (v2 % 4 * 64 + v3)
  {}

  lemma Split(x: nat, hi: nat, lo: nat)
    requires x == hi * 256 + lo && lo < 256
    ensures x % 256 == lo && x / 256 == hi
  {}

  lemma DivTwice(x: nat)
    ensures x / 0x1_0000 == x / 256 / 256
  {}

  lemma BytesOf(x: nat, b0: byte, b1: byte, b2: byte)
    requires x % 0x100_0000 == b0 * 0x1_0000 + b1 * 0x100 + b2
    ensures x / 0x1_0000 % 256 == b0 && x / 0x100 % 256 == b1 && x % 256 == b2
  {
    var q := x / 0x100_0000;
    Split(x, 0x1_0000 * q + b0 * 0x100 + b1, b2);
    Split(x / 256, 0x100 * q + b0, b1);
    Split(x / 256 / 256, q, b0);
    DivTwice(x);
  }

  lemma ThreeBytes(x: nat, v0: nat, v1: nat, v2: nat, v3: nat)
    requires v0 < 64 && v1 < 64 && v2 < 64 && v3 < 64 && x % 0x100_0000 == ((v0 * 64 + v1) * 64 + v2) * 64 + v3
    ensures [x / 0x1_0000 % 256, x / 0x100 % 256, x % 256] == Bytes(v0, v1, v2, v3)
  {
    SameNumber(v0, v1, v2, v3);
    var b := Bytes(v0, v1, v2, v3);
    BytesOf(x, b[0], b[1], b[2]);
  }

  // ---------- both passes ----------

  /** s is e with line ends, LF or CRLF, put in anywhere. */
  ghost predicate WithLineEnds(s: seq<byte>, e: seq<byte>) {
    if s == [] then e == []
    else if s[0] == LF then WithLineEnds(s[1..], e)
    else if |s| >= 2 && s[0] == CR && s[1] == LF then WithLineEnds(s[2..], e)
    else e != [] && s[0] == e[0] && WithLineEnds(s[1..], e[1..])
  }

  ghost predicate NoLineEnds(e: seq<byte>) {
    forall k :: 0 <= k < |e| ==> e[k] != CR && e[k] != LF
  }

  /** Line ends change nothing. */
  lemma {:induction false} LineEndsIgnored(s: seq<byte>, e: seq<byte>, j: nat, st: State)
    requires WithLineEnds(s, e) && NoLineEnds(e) && Valid(st)
    ensures Scan(s, j) == Scan(e, j) && Run(st, Meanings(s)) == Run(st, Meanings(e))
    decreases |s|
  {
    if s != [] {
      if s[0] == LF {
        LineEndsIgnored(s[1..], e, j, st);
      } else if |s| >= 2 && s[0] == CR && s[1] == LF {
        LineEndsIgnored(s[2..], e, j, st);
        assert s[1..][1..] == s[2..];
      } else {
        LineEndsIgnored(s[1..], e[1..], if s[0] == PAD then j + 1 else j, Step(st, Meaning(s[0])));
      }
    }
  }

  /** The padding seen so far, and the digits after it, as the first pass sees them. */
  lemma {:induction false} EncodedIsGood(b: seq<byte>)
    ensures Scan(Encode(b), 0) == Good(|Encode(b)|) && NoLineEnds(Encode(b))
    decreases |b|
  {
    if |b| == 1 {
      GroupIsGood(b[0], 0, 0, 1, []);
    } else if |b| == 2 {
      GroupIsGood(b[0], b[1], 0, 2, []);
    } else if |b| >= 3 {
      EncodedIsGood(b[3..]);
      GroupIsGood(b[0], b[1], b[2], 3, Encode(b[3..]));
    }
  }

  lemma ScanOne(c: byte, rest: seq<byte>, j: nat, n: nat)
    requires c != CR && c != LF && Scan(rest, if c == PAD then j + 1 else j) == Good(n)
    requires if c == PAD then j < 2 else Dec(c) < 64 && j == 0
    ensures Scan([c] + rest, j) == Good(n + 1)
  {
    assert ([c] + rest)[1..] == rest;
  }

  lemma EncIsPlain(v: nat)
    requires v < 64
    ensures Enc(v) != PAD && Enc(v) != CR && Enc(v) != LF && Dec(Enc(v)) < 64
  {}

  lemma GroupIsGood(b0: byte, b1: byte, b2: byte, k: nat, rest: seq<byte>)
    requires 1 <= k <= 3 && (k < 3 ==> rest == []) && Scan(rest, 0) == Good(|rest|) && NoLineEnds(rest)
    ensures var e := EncodeGroup(b0, b1, b2, k, rest); Scan(e, 0) == Good(|e|) && |e| == 4 + |rest| && NoLineEnds(e)
  {
    var d := Digits(b0, b1, b2);
    EncIsPlain(b0 / 4);
    EncIsPlain(b0 % 4 * 16 + b1 / 16);
    EncIsPlain(b1 % 16 * 4 + b2 / 64);
    EncIsPlain(b2 % 64);
    var c2, c3 := if k < 2 then PAD else d[2], if k < 3 then PAD else d[3];
    var j2 := if k < 2 then 1 else 0;
    assert Scan([], 1) == Scan([], 2) == Good(0);
    ScanOne(c3, rest, j2, |rest|);
    ScanOne(c2, [c3] + rest, 0, |rest| + 1);
    ScanOne(d[1], [c2] + ([c3] + rest), 0, |rest| + 2);
    ScanOne(d[0], [d[1]] + ([c2] + ([c3] + rest)), 0, |rest| + 3);
  }

  /** For every byte string, decoding its encoding, with line ends put in anywhere, is accepted and gives the
      bytes back. */
  lemma DecodeUndoesEncode(b: seq<byte>, s: seq<byte>)
    requires WithLineEnds(s, Encode(b))
    ensures Scan(s, 0) == Good(|Encode(b)|) && Decoded(s) == b && (b != [] ==> Encode(b) != [])
  {
    EncodedIsGood(b);
    LineEndsIgnored(s, Encode(b), 0, START);
    RunEncoded([], b);
    assert [] + b == b;
  }

  function Size(n: nat): (r: nat) {
    (n * 6 + 7) / 8
  }

  lemma StepBound(st: State, y: Symbol)
    requires Valid(st) && (y.Digit? ==> y.v < 64)
    ensures var r := Step(st, y); y != Blank ==>
      if |st.group| == 3 then |r.group| == 0 && |r.out| <= |st.out| + 3
        else |r.group| == |st.group| + 1 && r.out == st.out
  {}

  /** The second pass writes three bytes for each complete group at most. */
  lemma {:induction false} WritesWithin(st: State, s: seq<byte>, j: nat)
    requires Valid(st) && Scan(s, j).Good?
    ensures |Run(st, Meanings(s)).out| <= Room(st, Scan(s, j).n)
    decreases |s|
  {
    if s != [] {
      var c, r := s[0], Step(st, Meaning(s[0]));
      if (|s| >= 2 && c == CR && s[1] == LF) || c == LF {
        WritesWithin(st, s[1..], j);
      } else {
        var k := if c == PAD then j + 1 else j;
        WritesWithin(r, s[1..], k);
        StepRoom(st, Meaning(c), Scan(s[1..], k).n);
      }
    }
  }

  /** A bound on what is written once n more characters have been seen. */
  function Room(st: State, n: nat): (r: nat) {
    |st.out| + 3 * ((|st.group| + n) / 4)
  }

  lemma StepRoom(st: State, y: Symbol, n: nat)
    requires Valid(st) && (y.Digit? ==> y.v < 64) && y != Blank
    ensures Room(Step(st, y), n) <= Room(st, n + 1)
  {
    StepBound(st, y);
  }

  /** So it never writes more than the first pass computed. */
  lemma NeverOverflows(s: seq<byte>)
    requires Scan(s, 0).Good?
    ensures |Decoded(s)| <= Size(Scan(s, 0).n)
  {
    WritesWithin(START, s, 0);
  }

  function Plus(n: nat, c: Count): (r: Count) {
    if c.Good? then Good(n + c.n) else Bad
  }

  /** The first pass. */
  method CountChars(src: seq<byte>) returns (c: Count)
    ensures c == Scan(src, 0)
  {
    var i, j, n := 0, 0, 0;
    assert src[0..] == src;
    while i < |src|
      invariant i <= |src| && j <= 2 && Scan(src, 0) == Plus(n, Scan(src[i..], j))
    {
      ghost var rest := src[i..];
      assert rest[1..] == src[i + 1..];
      var ch := src[i];
      if (|src| - i >= 2 && ch == CR && src[i + 1] == LF) || ch == LF {
        i := i + 1;
        continue;
      }
      if ch == PAD {
        j := j + 1;
        if j > 2 {
          return Bad;
        }
      }
      if Dec(ch) == INVALID {
        return Bad;
      }
      if Dec(ch) < 64 && j != 0 {
        return Bad;
      }
      n, i := n + 1, i + 1;
    }
    c := Good(n);
  }

  /** Writes as many bytes of a complete group as j says. */
  method Flush(dst: array<byte>, p0: nat, x: nat, j: int, ghost b: seq<byte>) returns (p: nat)
    requires |b| == 3 && [x / 0x1_0000 % 256, x / 0x100 % 256, x % 256] == b && p0 + |Some(b, j)| <= dst.Length
    modifies dst
    ensures p == p0 + |Some(b, j)| && dst[..p] == old(dst[..p0]) + Some(b, j)
    ensures forall k :: p <= k < dst.Length ==> dst[k] == old(dst[k])
  {
    p := p0;
    if j > 0 {
      dst[p] := x / 0x1_0000 % 256;
      p := p + 1;
    }
    if j > 1 {
      dst[p] := x / 0x100 % 256;
      p := p + 1;
    }
    if j > 2 {
      dst[p] := x % 256;
      p := p + 1;
    }
  }

  /** The machine state of the second pass agrees with the specification's. */
  ghost predicate Agrees(dst: array<byte>, p: nat, n: nat, j: int, x: nat, st: State)
    reads dst
  {
    && p <= dst.Length && dst[..p] == st.out && Valid(st) && n == |st.group| && j == st.j && Holds(x, st.group)
  }

  /** One character of the second pass. */
  method Take(dst: array<byte>, p0: nat, n0: nat, j0: int, x0: nat, c: byte, ghost st: State)
    returns (p: nat, n: nat, j: int, x: nat)
    requires Agrees(dst, p0, n0, j0, x0, st) && |Step(st, Meaning(c)).out| <= dst.Length
    modifies dst
    ensures Agrees(dst, p, n, j, x, Step(st, Meaning(c)))
    ensures forall k :: p <= k < dst.Length ==> dst[k] == old(dst[k])
  {
    p, n, j, x := p0, n0, j0, x0;
    if c == CR || c == LF {
      return;
    }
    if Dec(c) == 64 {
      j := j - 1;
    }
    HoldsMore(x, st.group, Dec(c) % 64);
    x := Shift(x, Dec(c) % 64);
    n := n + 1;
    if n == 4 {
      n := 0;
      ghost var g := st.group;
      FourDigits(x, g[0], g[1], g[2], Dec(c) % 64, g);
      p := Flush(dst, p0, x, j, Bytes(g[0], g[1], g[2], Dec(c) % 64));
    }
  }

  lemma FourDigits(x: nat, v0: nat, v1: nat, v2: nat, v3: nat, g: seq<nat>)
    requires |g| == 3 && g[0] == v0 && g[1] == v1 && g[2] == v2 && v0 < 64 && v1 < 64 && v2 < 64 && v3 < 64
    requires Holds(x, g + [v3])
    ensures [x / 0x1_0000 % 256, x / 0x100 % 256, x % 256] == Bytes(v0, v1, v2, v3) && Holds(x, [])
  {
    assert (g + [v3])[..3] == g && g[..2] == [v0, v1] && [v0, v1][..1] == [v0];
    assert Number([v0]) == v0;
    assert Number([v0, v1]) == v0 * 64 + v1;
    assert Number(g) == (v0 * 64 + v1) * 64 + v2;
    assert Number(g + [v3]) == ((v0 * 64 + v1) * 64 + v2) * 64 + v3;
    ThreeBytes(x, v0, v1, v2, v3);
  }

  /** base64_decode: refuses what the first pass refuses, asks for a larger buffer if the bytes might not fit,
      and otherwise writes what the characters stand for. */
  method Decode(dst: array<byte>, dlen0: nat, src: seq<byte>) returns (ret: int, dlen: nat)
    requires dlen0 <= dst.Length
    modifies dst
    ensures Scan(src, 0) == Bad ==> ret == ERR_INVALID_CHARACTER && dlen == dlen0 && dst[..] == old(dst[..])
    ensures Scan(src, 0) == Good(0) ==> ret == 0 && dlen == dlen0 && dst[..] == old(dst[..])
    ensures Scan(src, 0).Good? && Scan(src, 0).n > 0 ==>
      if dlen0 < Size(Scan(src, 0).n)
        then ret == ERR_BUFFER_TOO_SMALL && dlen == Size(Scan(src, 0).n) && dst[..] == old(dst[..])
      else ret == 0 && dlen <= dlen0 && dst[..dlen] == Decoded(src) && dst[dlen..] == old(dst[..])[dlen..]
  {
    var count := CountChars(src);
    if count == Bad {
      return ERR_INVALID_CHARACTER, dlen0;
    }
    if count.n == 0 {
      return 0, dlen0;
    }
    if dlen0 < Size(count.n) {
      return ERR_BUFFER_TOO_SMALL, Size(count.n);
    }
    NeverOverflows(src);
    ret := 0;
    dlen := Write(dst, src);
  }

  /** The second pass. */
  method Write(dst: array<byte>, src: seq<byte>) returns (p: nat)
    requires |Decoded(src)| <= dst.Length
    modifies dst
    ensures p <= dst.Length && dst[..p] == Decoded(src) && dst[p..] == old(dst[..])[p..]
  {
    var i, n, j, x := 0, 0, 3, 0;
    p := 0;
    ghost var st := START;
    assert src[0..] == src && Number([]) == 0;
    while i < |src|
      invariant i <= |src| && Agrees(dst, p, n, j, x, st) && Run(st, Meanings(src[i..])).out == Decoded(src)
      invariant forall k :: p <= k < dst.Length ==> dst[k] == old(dst[k])
    {
      assert src[i..][1..] == src[i + 1..] && src[i..][0] == src[i];
      p, n, j, x := Take(dst, p, n, j, x, src[i], st);
      st, i := Step(st, Meaning(src[i])), i + 1;
    }
  }
}
