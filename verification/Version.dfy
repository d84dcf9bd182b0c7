/** Version comparison (lib/libalpm/version.c): the segment-wise comparison inherited from rpm, and
    the splitting of a full version into epoch, version and release. */
module Version {
  import opened Packages

  predicate IsDigit(c: char) { '0' <= c <= '9' }
  predicate IsAlpha(c: char) { 'a' <= c <= 'z' || 'A' <= c <= 'Z' }
  predicate IsAlnum(c: char) { IsDigit(c) || IsAlpha(c) }

  // ---------- the comparison, as a function of what remains of the two strings ----------

  /** Length of the leading run of separators. */
  function Seps(s: string): (n: nat)
    ensures n <= |s|
  {
    if s == "" || IsAlnum(s[0]) then 0 else 1 + Seps(s[1..])
  }

  function Digits(s: string): (n: nat)
    ensures n <= |s|
  {
    if s == "" || !IsDigit(s[0]) then 0 else 1 + Digits(s[1..])
  }

  function Alphas(s: string): (n: nat)
    ensures n <= |s|
  {
    if s == "" || !IsAlpha(s[0]) then 0 else 1 + Alphas(s[1..])
  }

  function Zeros(s: string): (n: nat)
    ensures n <= |s|
  {
    if s == "" || s[0] != '0' then 0 else 1 + Zeros(s[1..])
  }

  /** Two runs of digits: leading zeros go, then the longer run wins, then strcmp decides. */
  function CompareDigits(a: string, b: string): (r: int) {
    var a', b' := a[Zeros(a)..], b[Zeros(b)..];
    if |a'| > |b'| then 1 else if |b'| > |a'| then -1 else Strcmp(a', b')
  }

  /** At the end of at least one string: a remaining alpha is older than nothing, anything else is newer. */
  function Showdown(a: string, b: string): (r: int) {
    if a == "" && b == "" then 0
    else if (a == "" && !IsAlpha(b[0])) || (a != "" && IsAlpha(a[0])) then -1
    else 1
  }

  function Compare(a: string, b: string): (r: int)
    decreases |a|, 1
  {
    if a == "" || b == "" then Showdown(a, b)
    else
      var a', b' := a[Seps(a)..], b[Seps(b)..];
      if a' == "" || b' == "" then Showdown(a', b')
      else if Seps(a) != Seps(b) then (if Seps(a) < Seps(b) then -1 else 1)
      else CompareHere(a', b')
  }

  /** Past the separators: the first segments decide, or else what follows them. */
  function CompareHere(a: string, b: string): (r: int)
    requires a != "" && b != ""
    decreases |a|, 0
  {
    if IsDigit(a[0]) then
      var m, n := Digits(a), Digits(b);
      if n == 0 then 1
      else var c := CompareDigits(a[..m], b[..n]); if c != 0 then c else Compare(a[m..], b[n..])
    else
      var m, n := Alphas(a), Alphas(b);
      if m == 0 || n == 0 then -1
      else var c := Strcmp(a[..m], b[..n]); if c != 0 then c else Compare(a[m..], b[n..])
  }

  function RpmVerCmp(a: string, b: string): (r: int) {
    if a == b then 0 else Compare(a, b)
  }

  // ---------- the loops; a pointer into a string is the string it points at ----------

  method SkipSeps(s: string) returns (r: string)
    ensures r == s[Seps(s)..]
  {
    r := s;
    while r != "" && !IsAlnum(r[0])
      invariant r[Seps(r)..] == s[Seps(s)..]
      decreases |r|
    {
      r := r[1..];
    }
  }

  method SkipDigits(s: string) returns (r: string)
    ensures r == s[Digits(s)..]
  {
    r := s;
    while r != "" && IsDigit(r[0])
      invariant r[Digits(r)..] == s[Digits(s)..]
      decreases |r|
    {
      r := r[1..];
    }
  }

  method SkipAlphas(s: string) returns (r: string)
    ensures r == s[Alphas(s)..]
  {
    r := s;
    while r != "" && IsAlpha(r[0])
      invariant r[Alphas(r)..] == s[Alphas(s)..]
      decreases |r|
    {
      r := r[1..];
    }
  }

  method SkipZeros(s: string) returns (r: string)
    ensures r == s[Zeros(s)..]
  {
    r := s;
    while r != "" && r[0] == '0'
      invariant r[Zeros(r)..] == s[Zeros(s)..]
      decreases |r|
    {
      r := r[1..];
    }
  }

  /** Compares two segments of the same kind. */
  method CompareSegments(isnum: bool, a: string, b: string) returns (r: int)
    ensures r == if isnum then CompareDigits(a, b) else Strcmp(a, b)
  {
    var one, two := a, b;
    if isnum {
      one := SkipZeros(one);
      two := SkipZeros(two);
      if |one| > |two| { return 1; }
      if |two| > |one| { return -1; }
    }
    r := Strcmp(one, two);
  }

  lemma AfterSeps(s: string)
    ensures Seps(s) < |s| ==> IsAlnum(s[Seps(s)])
  {}

  /** Compares the segments at the start of both strings, which are past their separators. */
  method CompareFirst(one: string, two: string) returns (c: int, ptr1: string, ptr2: string)
    requires one != "" && two != "" && IsAlnum(one[0])
    ensures c != 0 ==> c == CompareHere(one, two)
    ensures c == 0 ==> |ptr1| < |one| && CompareHere(one, two) == Compare(ptr1, ptr2)
  {
    var isnum := IsDigit(one[0]);
    if isnum {
      ptr1 := SkipDigits(one);
      ptr2 := SkipDigits(two);
    } else {
      ptr1 := SkipAlphas(one);
      ptr2 := SkipAlphas(two);
    }
    if |one| == |ptr1| { return -1, ptr1, ptr2; }
    if |two| == |ptr2| { return if isnum then 1 else -1, ptr1, ptr2; }
    c := CompareSegments(isnum, one[..|one| - |ptr1|], two[..|two| - |ptr2|]);
  }

  method Rpmvercmp(a: string, b: string) returns (ret: int)
    ensures ret == RpmVerCmp(a, b)
  {
    if a == b { return 0; }
    var one, two := a, b;
    while one != "" && two != ""
      invariant Compare(one, two) == Compare(a, b)
      decreases |one|
    {
      var ptr1, ptr2 := one, two;
      AfterSeps(one);
      one := SkipSeps(one);
      two := SkipSeps(two);
      if one == "" || two == "" {
        ret := Final(one, two);
        return;
      }
      if |ptr1| - |one| != |ptr2| - |two| {
        return if |ptr1| - |one| < |ptr2| - |two| then -1 else 1;
      }
      ret, one, two := CompareFirst(one, two);
      if ret != 0 { return; }
    }
    ret := Final(one, two);
  }

  method Final(one: string, two: string) returns (ret: int)
    requires one == "" || two == ""
    ensures ret == Showdown(one, two)
  {
    if one == "" && two == "" { return 0; }
    if (one == "" && !IsAlpha(two[0])) || (one != "" && IsAlpha(one[0])) {
      ret := -1;
    } else {
      ret := 1;
    }
  }

  // ---------- epoch, version and release ----------

  datatype Evr = Evr(epoch: string, version: string, release: Option<string>)

  /** strrchr(s, '-'), as a position or |s| when there is none. */
  function LastDash(s: string): (k: nat)
    ensures k <= |s|
    ensures k < |s| ==> s[k] == '-'
    ensures forall i :: k < i < |s| ==> s[i] != '-'
    ensures k == |s| ==> forall i :: 0 <= i < |s| ==> s[i] != '-'
  {
    if s == "" then 0
    else if s[|s| - 1] == '-' then |s| - 1
    else
      var k := LastDash(s[..|s| - 1]);
      if k == |s| - 1 then |s| else k
  }

  function SplitRelease(epoch: string, rest: string): (r: Evr) {
    var k := LastDash(rest);
    if k < |rest| then Evr(epoch, rest[..k], Some(rest[k + 1..])) else Evr(epoch, rest, None)
  }

  function ParseEvr(evr: string): (r: Evr) {
    var n := Digits(evr);
    if n < |evr| && evr[n] == ':' then SplitRelease(if n == 0 then "0" else evr[..n], evr[n + 1..])
    else SplitRelease("0", evr)
  }

  method ParseEVR(evr: string) returns (epoch: string, version: string, release: Option<string>)
    ensures Evr(epoch, version, release) == ParseEvr(evr)
  {
    var s := SkipDigits(evr);
    var n := |evr| - |s|;
    assert s == evr[n..];
    if s != "" && s[0] == ':' {
      epoch := evr[..n];
      version := s[1..];
      assert version == evr[n + 1..];
      if epoch == "" {
        epoch := "0";
      }
    } else {
      epoch := "0";
      version := evr;
    }
    var se := LastDash(version);
    if se < |version| {
      release := Some(version[se + 1..]);
      version := version[..se];
    } else {
      release := None;
    }
  }

  function VerCmp(a: Option<string>, b: Option<string>): (r: int) {
    if a == None && b == None then 0
    else if a == None then -1
    else if b == None then 1
    else if a == b then 0
    else CompareEvr(ParseEvr(a.value), ParseEvr(b.value))
  }

  function CompareEvr(a: Evr, b: Evr): (r: int) {
    var c := RpmVerCmp(a.epoch, b.epoch);
    if c != 0 then c
    else
      var d := RpmVerCmp(a.version, b.version);
      if d == 0 && a.release != None && b.release != None then RpmVerCmp(a.release.value, b.release.value) else d
  }

  method PkgVercmp(a: Option<string>, b: Option<string>) returns (ret: int)
    ensures ret == VerCmp(a, b)
  {
    if a == None && b == None { return 0; }
    if a == None { return -1; }
    if b == None { return 1; }
    if a == b { return 0; }
    var epoch1, ver1, rel1 := ParseEVR(a.value);
    var epoch2, ver2, rel2 := ParseEVR(b.value);
    ret := Rpmvercmp(epoch1, epoch2);
    if ret == 0 {
      ret := Rpmvercmp(ver1, ver2);
      if ret == 0 && rel1 != None && rel2 != None {
        ret := Rpmvercmp(rel1.value, rel2.value);
      }
    }
  }
}
