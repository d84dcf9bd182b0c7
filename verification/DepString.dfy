/** Dependency strings, "name[op version][: description]" (lib/libalpm/deps.c): parsing and printing. */
module DepString {
  import opened Packages

  /** memchr: the first position of c, or |s|. */
  function IndexOf(s: string, c: char): (i: nat)
    ensures i <= |s|
    ensures i < |s| ==> s[i] == c
    ensures forall j :: 0 <= j < i ==> s[j] != c
  {
    if s == "" || s[0] == c then 0 else 1 + IndexOf(s[1..], c)
  }

  /** strstr(s, ": "): the first position of a colon followed by a space, or |s|. */
  function DescAt(s: string): (i: nat)
    ensures i <= |s|
    ensures i < |s| ==> i + 1 < |s| && s[i] == ':' && s[i + 1] == ' '
    ensures forall j :: 0 <= j < i && j + 1 < |s| ==> !(s[j] == ':' && s[j + 1] == ' ')
  {
    if |s| < 2 then |s|
    else if s[0] == ':' && s[1] == ' ' then 0
    else 1 + DescAt(s[1..])
  }

  function Op(mod: DepMod): (s: string) {
    match mod
    case ANY => ""
    case EQ => "="
    case GE => ">="
    case LE => "<="
    case GT => ">"
    case LT => "<"
  }

  predicate EqualsAt(s: string, i: nat) {
    i < |s| && s[i] == '='
  }

  /** The record for a comparator found at position `at`. */
  function Cut(head: string, at: nat, mod: DepMod, desc: Option<string>): (d: Depend)
    requires at + |Op(mod)| <= |head|
  {
    Depend(head[..at], Some(head[at + |Op(mod)|..]), desc, mod)
  }

  /** The part before the description. */
  function ParseHead(head: string, desc: Option<string>): (d: Depend) {
    var lt, gt, eq := IndexOf(head, '<'), IndexOf(head, '>'), IndexOf(head, '=');
    if lt < |head| then Cut(head, lt, if EqualsAt(head, lt + 1) then LE else LT, desc)
    else if gt < |head| then Cut(head, gt, if EqualsAt(head, gt + 1) then GE else GT, desc)
    else if eq < |head| then Cut(head, eq, EQ, desc)
    else Depend(head, None, desc, ANY)
  }

  function ParseDep(s: string): (d: Depend) {
    var k := DescAt(s);
    if k < |s| then ParseHead(s[..k], Some(s[k + 2..])) else ParseHead(s, None)
  }

  function PrintHead(d: Depend): (s: string) {
    d.name + Op(d.mod) + (if d.mod != ANY && d.version != None then d.version.value else "")
  }

  function PrintDep(d: Depend): (s: string) {
    PrintHead(d) + (if d.desc != None then ": " + d.desc.value else "")
  }

  lemma PrintCut(head: string, at: nat, mod: DepMod, desc: Option<string>)
    requires mod != ANY && at + |Op(mod)| <= |head| && forall i :: 0 <= i < |Op(mod)| ==> head[at + i] == Op(mod)[i]
    ensures PrintHead(Cut(head, at, mod, desc)) == head
  {
    var n := |Op(mod)|;
    assert head[at..at + n] == Op(mod);
    assert head == head[..at] + head[at..at + n] + head[at + n..];
  }

  lemma {:induction false} PrintParsedHead(head: string, desc: Option<string>)
    ensures PrintHead(ParseHead(head, desc)) == head && ParseHead(head, desc).desc == desc
  {
    var d := ParseHead(head, desc);
    if d.mod != ANY { PrintCut(head, |d.name|, d.mod, desc); }
  }

  /** Printing a parsed dependency gives back the text, for every string. */
  lemma PrintParsed(s: string)
    ensures PrintDep(ParseDep(s)) == s
  {
    var k := DescAt(s);
    if k < |s| {
      PrintWithDesc(s[..k], s[k + 2..]);
      assert s == s[..k] + (": " + s[k + 2..]);
    } else {
      PrintParsedHead(s, None);
      assert s + "" == s;
    }
  }

  lemma PrintWithDesc(head: string, desc: string)
    ensures PrintDep(ParseHead(head, Some(desc))) == head + (": " + desc)
  {
    PrintParsedHead(head, Some(desc));
  }

  // ---------- exactly which records survive printing and parsing ----------

  predicate Lacks(s: string, c: char) {
    c !in s
  }

  predicate LacksDesc(s: string) {
    DescAt(s) == |s|
  }

  /** What the parser relies on; it depends on the comparator, since '<' is looked for before '>' and '='. */
  predicate WellFormed(d: Depend) {
    && LacksDesc(d.name) && (d.version != None ==> LacksDesc(d.version.value))
    && (d.version != None <==> d.mod != ANY)
    && match d.mod
       case ANY => Lacks(d.name, '<') && Lacks(d.name, '>') && Lacks(d.name, '=')
       case LE => Lacks(d.name, '<')
       case LT => Lacks(d.name, '<') && !EqualsAt(d.version.value, 0)
       case GE => Lacks(d.name, '<') && Lacks(d.name, '>') && Lacks(d.version.value, '<')
       case GT => Lacks(d.name, '<') && Lacks(d.name, '>') && Lacks(d.version.value, '<')
         && !EqualsAt(d.version.value, 0)
       case EQ =>
         && Lacks(d.name, '<') && Lacks(d.name, '>') && Lacks(d.name, '=')
         && Lacks(d.version.value, '<') && Lacks(d.version.value, '>')
  }

  /** The head of a printed dependency is found again, exactly when name and version lack ": ". */
  lemma DescOfPrinted(d: Depend)
    requires d.version != None <==> d.mod != ANY
    ensures var k := DescAt(PrintDep(d));
      LacksDesc(d.name) && (d.version != None ==> LacksDesc(d.version.value)) <==> k == |PrintHead(d)|
  {
    var h, s := PrintHead(d), PrintDep(d);
    HeadLacksDesc(d);
    DescOfHead(h, if d.desc != None then ": " + d.desc.value else "");
  }

  lemma {:induction false} DescOfHead(h: string, t: string)
    requires t == "" || (|t| >= 2 && t[0] == ':' && t[1] == ' ')
    ensures LacksDesc(h) <==> DescAt(h + t) == |h|
    ensures DescAt(h + t) <= |h|
  {
    var s := h + t;
    assert t != "" ==> s[|h|] == ':' && s[|h| + 1] == ' ';
    assert forall j :: 0 <= j < |h| ==> s[j] == h[j];
    if !LacksDesc(h) {
      var j := DescAt(h);
      assert s[j] == ':' && s[j + 1] == ' ';
    }
  }

  lemma {:induction false} LacksAppend(a: string, b: string)
    requires a == "" || b == "" || a[|a| - 1] != ':' || b[0] != ' '
    ensures LacksDesc(a + b) <==> LacksDesc(a) && LacksDesc(b)
  {
    var s := a + b;
    assert forall j :: 0 <= j < |a| ==> s[j] == a[j];
    assert forall j :: 0 <= j < |b| ==> s[|a| + j] == b[j];
    if !LacksDesc(a) {
      var j := DescAt(a);
      assert s[j] == ':' && s[j + 1] == ' ';
    } else if !LacksDesc(b) {
      var j := DescAt(b);
      assert s[|a| + j] == ':' && s[|a| + j + 1] == ' ';
    } else {
      forall j | 0 <= j && j + 1 < |s|
        ensures !(s[j] == ':' && s[j + 1] == ' ')
      {
        if j + 1 < |a| { assert s[j] == a[j] && s[j + 1] == a[j + 1]; }
        if |a| <= j { assert s[j] == b[j - |a|] && s[j + 1] == b[j + 1 - |a|]; }
      }
    }
  }

  lemma {:induction false} HeadLacksDesc(d: Depend)
    requires d.version != None <==> d.mod != ANY
    ensures LacksDesc(PrintHead(d)) <==> LacksDesc(d.name) && (d.version != None ==> LacksDesc(d.version.value))
  {
    var o := Op(d.mod);
    if d.mod == ANY {
      assert PrintHead(d) == d.name;
    } else {
      LacksAppend(d.name, o);
      LacksAppend(d.name + o, d.version.value);
    }
  }

  lemma {:induction false} IndexAppend(a: string, b: string, c: char)
    ensures IndexOf(a + b, c) == if c in a then IndexOf(a, c) else |a| + IndexOf(b, c)
    ensures IndexOf(a, c) < |a| <==> c in a
  {
    if a == "" {
      assert a + b == b;
    } else {
      IndexAppend(a[1..], b, c);
      assert (a + b)[1..] == a[1..] + b;
      assert a == [a[0]] + a[1..];
    }
  }

  /** Cutting before the name's end, or with another comparator, cannot give the record back. */
  lemma CutElsewhere(d: Depend, h: string, at: nat, mod: DepMod)
    requires d.mod != ANY && d.version != None && h == d.name + (Op(d.mod) + d.version.value)
    requires at <= |d.name| && at + |Op(mod)| <= |h|
    ensures Cut(h, at, mod, d.desc) == d <==> at == |d.name| && mod == d.mod
  {
    CutAt(d, h);
    assert |h[..at]| == at;
  }

  lemma {:induction false} RoundTripAny(d: Depend)
    requires d.version == None && d.mod == ANY && LacksDesc(d.name)
    ensures ParseHead(PrintHead(d), d.desc) == d <==> WellFormed(d)
  {
    var h := PrintHead(d);
    assert h == d.name;
    FirstIn("", h, '<');
    FirstIn("", h, '>');
    FirstIn("", h, '=');
  }

  lemma {:induction false} RoundTripLess(d: Depend)
    requires d.version != None && (d.mod == LT || d.mod == LE) && LacksDesc(d.name) && LacksDesc(d.version.value)
    ensures ParseHead(PrintHead(d), d.desc) == d <==> WellFormed(d)
  {
    var t := Op(d.mod) + d.version.value;
    var h := d.name + t;
    assert PrintHead(d) == h;
    FirstIn(d.name, t, '<');
    OpTail(d.mod, d.version.value);
    CutAt(d, h);
    var at := IndexOf(h, '<');
    CutElsewhere(d, h, at, if EqualsAt(h, at + 1) then LE else LT);
  }

  /** Where the first comparator characters stand in name, comparator and version. */
  lemma Lacking(name: string, mod: DepMod, version: string, h: string, c: char)
    requires mod != ANY && h == name + (Op(mod) + version) && c !in Op(mod)
    ensures IndexOf(h, c) == |h| <==> Lacks(name, c) && Lacks(version, c)
  {
    var t := Op(mod) + version;
    FirstIn(name, t, c);
    assert c in t <==> c in version;
  }

  lemma Leading(name: string, mod: DepMod, version: string, h: string, c: char)
    requires mod != ANY && h == name + (Op(mod) + version) && Op(mod)[0] == c
    ensures if Lacks(name, c) then IndexOf(h, c) == |name| else IndexOf(h, c) < |name|
  {
    FirstIn(name, Op(mod) + version, c);
  }

  lemma EqualsNext(d: Depend, h: string)
    requires d.version != None && (d.mod == GT || d.mod == GE) && h == d.name + (Op(d.mod) + d.version.value)
    ensures EqualsAt(h, |d.name| + 1) <==> d.mod == GE || EqualsAt(d.version.value, 0)
  {
    CutAt(d, h);
    OpTail(d.mod, d.version.value);
  }

  lemma {:induction false} RoundTripGreater(d: Depend)
    requires d.version != None && (d.mod == GT || d.mod == GE) && LacksDesc(d.name) && LacksDesc(d.version.value)
    ensures ParseHead(PrintHead(d), d.desc) == d <==> WellFormed(d)
  {
    var h := d.name + (Op(d.mod) + d.version.value);
    assert PrintHead(d) == h;
    Lacking(d.name, d.mod, d.version.value, h, '<');
    Leading(d.name, d.mod, d.version.value, h, '>');
    EqualsNext(d, h);
    GreaterCut(d, h, IndexOf(h, '<'), IndexOf(h, '>'));
  }

  lemma GreaterCut(d: Depend, h: string, lt: nat, gt: nat)
    requires d.version != None && (d.mod == GT || d.mod == GE) && h == d.name + (Op(d.mod) + d.version.value)
    requires lt == IndexOf(h, '<') && gt == IndexOf(h, '>') && gt <= |d.name|
    ensures ParseHead(h, d.desc) == d <==> lt == |h| && gt == |d.name| && (EqualsAt(h, gt + 1) <==> d.mod == GE)
  {
    if lt == |h| {
      CutElsewhere(d, h, gt, if EqualsAt(h, gt + 1) then GE else GT);
    }
  }

  lemma {:induction false} RoundTripEqual(d: Depend)
    requires d.version != None && d.mod == EQ && LacksDesc(d.name) && LacksDesc(d.version.value)
    ensures ParseHead(PrintHead(d), d.desc) == d <==> WellFormed(d)
  {
    var h := d.name + (Op(d.mod) + d.version.value);
    assert PrintHead(d) == h;
    Lacking(d.name, d.mod, d.version.value, h, '<');
    Lacking(d.name, d.mod, d.version.value, h, '>');
    Leading(d.name, d.mod, d.version.value, h, '=');
    EqualCut(d, h, IndexOf(h, '<'), IndexOf(h, '>'), IndexOf(h, '='));
  }

  lemma EqualCut(d: Depend, h: string, lt: nat, gt: nat, eq: nat)
    requires d.version != None && d.mod == EQ && h == d.name + (Op(d.mod) + d.version.value)
    requires lt == IndexOf(h, '<') && gt == IndexOf(h, '>') && eq == IndexOf(h, '=') && eq <= |d.name|
    ensures ParseHead(h, d.desc) == d <==> lt == |h| && gt == |h| && eq == |d.name|
  {
    if lt == |h| && gt == |h| {
      CutElsewhere(d, h, eq, EQ);
    }
  }

  /** The comparator of a printed head is found again exactly under the conditions of WellFormed. */
  lemma HeadRoundTrip(d: Depend)
    requires d.version != None <==> d.mod != ANY
    requires LacksDesc(d.name) && (d.version != None ==> LacksDesc(d.version.value))
    ensures ParseHead(PrintHead(d), d.desc) == d <==> WellFormed(d)
  {
    match d.mod
    case ANY => RoundTripAny(d);
    case LT => RoundTripLess(d);
    case LE => RoundTripLess(d);
    case GT => RoundTripGreater(d);
    case GE => RoundTripGreater(d);
    case EQ => RoundTripEqual(d);
  }

  lemma FirstIn(a: string, b: string, c: char)
    ensures IndexOf(a + b, c) == if c in a then IndexOf(a, c) else |a| + IndexOf(b, c)
    ensures c in a ==> IndexOf(a, c) < |a|
    ensures IndexOf(b, c) < |b| <==> c in b
  {
    IndexAppend(a, b, c);
    IndexAppend(b, "", c);
  }

  /** Where the three comparator characters first stand in an operator followed by a version. */
  lemma OpTail(mod: DepMod, v: string)
    requires mod != ANY
    ensures var t := Op(mod) + v;
      && (mod == LE || mod == LT ==> IndexOf(t, '<') == 0)
      && (mod == GE || mod == GT ==> IndexOf(t, '>') == 0 && ('<' in t <==> '<' in v))
      && (mod == EQ ==> IndexOf(t, '=') == 0 && ('<' in t <==> '<' in v) && ('>' in t <==> '>' in v))
      && (mod == LE || mod == GE ==> EqualsAt(t, 1))
      && (mod == LT || mod == GT ==> (EqualsAt(t, 1) <==> EqualsAt(v, 0)))
  {
    var t := Op(mod) + v;
    assert forall i :: 0 <= i < |v| ==> t[|Op(mod)| + i] == v[i];
  }

  /** Cutting the printed head where the name ends gives the record back. */
  lemma CutAt(d: Depend, h: string)
    requires d.mod != ANY && d.version != None && h == d.name + (Op(d.mod) + d.version.value)
    ensures Cut(h, |d.name|, d.mod, d.desc) == d
    ensures forall i :: i >= 0 ==> (EqualsAt(h, |d.name| + i) <==> EqualsAt(Op(d.mod) + d.version.value, i))
  {
    var n, o := |d.name|, |Op(d.mod)|;
    assert h[..n] == d.name && h[n + o..] == d.version.value;
  }

  /** A description found inside the head is longer than the one that was printed. */
  lemma DescTooEarly(d: Depend)
    requires DescAt(PrintDep(d)) < |PrintHead(d)|
    ensures ParseDep(PrintDep(d)).desc != d.desc
  {
    var s := PrintDep(d);
    var k := DescAt(s);
    PrintParsedHead(s[..k], Some(s[k + 2..]));
    assert |s[k + 2..]| == |s| - k - 2;
  }

  lemma DescInPlace(d: Depend)
    requires DescAt(PrintDep(d)) == |PrintHead(d)|
    ensures ParseDep(PrintDep(d)) == ParseHead(PrintHead(d), d.desc)
  {
    var s, h := PrintDep(d), PrintHead(d);
    if d.desc != None {
      assert s[..|h|] == h && s[|h| + 2..] == d.desc.value;
    } else {
      assert s == h;
    }
  }

  /** Parsing a printed dependency gives back the record exactly when it is well formed. */
  lemma ParsePrinted(d: Depend)
    ensures ParseDep(PrintDep(d)) == d <==> WellFormed(d)
  {
    if d.version != None <==> d.mod != ANY {
      DescOfPrinted(d);
      DescOfHead(PrintHead(d), if d.desc != None then ": " + d.desc.value else "");
      if DescAt(PrintDep(d)) == |PrintHead(d)| {
        DescInPlace(d);
        HeadRoundTrip(d);
      } else {
        DescTooEarly(d);
      }
    }
  }
}
