/** Names, dependencies and packages (lib/libalpm/package.c, util.c), as values. */
module Packages {
  import opened Orders

  datatype Option<+T> = None | Some(value: T)

  datatype DepMod = ANY | EQ | GE | LE | GT | LT

  /** alpm_depend_t. The name hash is not stored: it is always NameHash(name). */
  datatype Depend = Depend(name: string, version: Option<string>, desc: Option<string>, mod: DepMod)

  datatype Reason = Explicit | AsDependency

  datatype Pkg = Pkg(
    name: string, version: string, filename: string, reason: Reason,
    depends: seq<Depend>, provisions: seq<Depend>, conflicts: seq<Depend>)

  function Lookup(m: map<string, Pkg>, name: string): (r: Option<Pkg>) {
    if name in m then Some(m[name]) else None
  }

  const ULONG_RANGE: nat := 0x1_0000_0000_0000_0000

  /** The sdbm hash, with the wrap-around of a 64-bit unsigned long. */
  function NameHash(name: string): (h: nat)
    ensures h < ULONG_RANGE
  {
    if name == "" then 0
    else (name[|name| - 1] as int + NameHash(name[..|name| - 1]) * 65599) % ULONG_RANGE
  }

  /** strcmp on NUL-free strings, normalised to -1, 0 and 1. */
  function Strcmp(a: string, b: string): (r: int) {
    if a == "" then (if b == "" then 0 else -1)
    else if b == "" then 1
    else if a[0] < b[0] then -1
    else if a[0] > b[0] then 1
    else Strcmp(a[1..], b[1..])
  }

  lemma {:induction false} StrcmpFacts(a: string, b: string)
    ensures Strcmp(a, b) == -Strcmp(b, a)
    ensures Strcmp(a, b) == 0 <==> a == b
  {
    if a != "" && b != "" && a[0] == b[0] {
      StrcmpFacts(a[1..], b[1..]);
      assert a == [a[0]] + a[1..] && b == [b[0]] + b[1..];
    }
  }

  /** The order of the dictionary: a beginning comes first, else the first difference decides. */
  lemma {:induction false} StrcmpExactly(a: string, b: string)
    ensures Strcmp(a, b) < 0 <==> a < b || exists k :: 0 <= k < |a| && k < |b| && a[..k] == b[..k] && a[k] < b[k]
  {
    if a != "" && b != "" {
      if a[0] == b[0] {
        StrcmpExactly(a[1..], b[1..]);
        SameStart(a, b);
      } else {
        assert a[..0] == b[..0];
        forall k | 0 < k < |a| && k < |b| ensures a[..k] != b[..k] { assert a[..k][0] == a[0] && b[..k][0] == b[0]; }
      }
    }
  }

  lemma SameStart(a: string, b: string)
    requires a != "" && b != "" && a[0] == b[0]
    ensures a < b <==> a[1..] < b[1..]
    ensures (exists k :: 0 <= k < |a| && k < |b| && a[..k] == b[..k] && a[k] < b[k])
      <==> exists k :: 0 <= k < |a[1..]| && k < |b[1..]| && a[1..][..k] == b[1..][..k] && a[1..][k] < b[1..][k]
  {
    assert a == [a[0]] + a[1..] && b == [b[0]] + b[1..];
    forall k | 0 <= k < |a| && k < |b| && a[..k] == b[..k] && a[k] < b[k]
      ensures exists j :: 0 <= j < |a[1..]| && j < |b[1..]| && a[1..][..j] == b[1..][..j] && a[1..][j] < b[1..][j]
    {
      assert a[1..][..k - 1] == a[..k][1..] && b[1..][..k - 1] == b[..k][1..];
      assert a[1..][k - 1] < b[1..][k - 1];
    }
    forall k | 0 <= k < |a[1..]| && k < |b[1..]| && a[1..][..k] == b[1..][..k] && a[1..][k] < b[1..][k]
      ensures exists j :: 0 <= j < |a| && j < |b| && a[..j] == b[..j] && a[j] < b[j]
    {
      assert a[..k + 1] == [a[0]] + a[1..][..k] && b[..k + 1] == [b[0]] + b[1..][..k];
      assert a[k + 1] < b[k + 1];
    }
  }

  lemma {:induction false} StrcmpTransitive(a: string, b: string, c: string)
    requires Strcmp(a, b) <= 0 && Strcmp(b, c) <= 0
    ensures Strcmp(a, c) <= 0
  {
    if a != "" && b != "" && c != "" && a[0] == b[0] == c[0] {
      StrcmpTransitive(a[1..], b[1..], c[1..]);
    }
  }

  function PkgCmp(p: Pkg, q: Pkg): (r: int) {
    Strcmp(p.name, q.name)
  }

  lemma StrcmpOrders()
    ensures IsOrder(Strcmp)
  {
    forall x, y ensures Strcmp(x, y) <= 0 <==> Strcmp(y, x) >= 0 { StrcmpFacts(x, y); }
    forall x, y, z | Strcmp(x, y) <= 0 && Strcmp(y, z) <= 0 ensures Strcmp(x, z) <= 0 { StrcmpTransitive(x, y, z); }
  }

  lemma PkgCmpOrders()
    ensures IsOrder(PkgCmp)
  {
    forall x, y ensures PkgCmp(x, y) <= 0 <==> PkgCmp(y, x) >= 0 { StrcmpFacts(x.name, y.name); }
    forall x, y, z | PkgCmp(x, y) <= 0 && PkgCmp(y, z) <= 0 ensures PkgCmp(x, z) <= 0 {
      StrcmpTransitive(x.name, y.name, z.name);
    }
  }
}
