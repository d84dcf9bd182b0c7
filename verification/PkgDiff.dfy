/** Differences of package lists by name: alpm_list_diff with _alpm_pkg_cmp, as used on the local database
    (lib/libalpm/conflict.c, lib/libalpm/deps.c). */
module PkgDiff {
  import opened Packages
  import opened ListSeq
  import opened ListDiff
  import opened Deps

  lemma {:induction false} EqualsMember(key: Pkg, xs: seq<Pkg>, p: Pkg)
    ensures p in Equals(key, xs, PkgCmp) <==> p in xs && p.name == key.name
  {
    if xs != [] {
      StrcmpFacts(xs[0].name, key.name);
      EqualsMember(key, xs[1..], p);
      assert xs == [xs[0]] + xs[1..];
    }
  }

  lemma {:induction false} EqualsCount(key: Pkg, xs: seq<Pkg>)
    requires UniquelyNamed(xs)
    ensures |Equals(key, xs, PkgCmp)| == if Named(xs, key.name) then 1 else 0
  {
    if xs != [] {
      StrcmpFacts(xs[0].name, key.name);
      EqualsCount(key, xs[1..]);
      assert forall k :: 0 <= k < |xs| - 1 ==> xs[1..][k] == xs[k + 1];
      assert forall k :: 0 < k < |xs| ==> xs[k] == xs[1..][k - 1];
      if xs[0].name == key.name { assert !Named(xs[1..], key.name); }
    }
  }

  lemma {:induction false} EqualsTwice(key: Pkg, xs: seq<Pkg>, i: nat, j: nat)
    requires i < j < |xs| && xs[i].name == key.name && xs[j].name == key.name
    ensures |Equals(key, xs, PkgCmp)| >= 2
  {
    StrcmpFacts(xs[0].name, key.name);
    if i > 0 {
      EqualsTwice(key, xs[1..], i - 1, j - 1);
    } else {
      EqualsMember(key, xs[1..], xs[j]);
      assert xs[1..][j - 1] == xs[j];
    }
  }

  lemma {:induction false} EqualsSome(key: Pkg, xs: seq<Pkg>)
    ensures Equals(key, xs, PkgCmp) != [] <==> Named(xs, key.name)
  {
    if Named(xs, key.name) {
      var k :| 0 <= k < |xs| && xs[k].name == key.name;
      EqualsMember(key, xs, xs[k]);
    }
    if Equals(key, xs, PkgCmp) != [] {
      EqualsMember(key, xs, Equals(key, xs, PkgCmp)[0]);
    }
  }

  /** d is what alpm_list_diff promises of l and r. */
  ghost predicate IsDiff(d: seq<Pkg>, l: seq<Pkg>, r: seq<Pkg>) {
    forall key :: Equals(key, d, PkgCmp) == Drop(Equals(key, l, PkgCmp), |Equals(key, r, PkgCmp)|)
  }

  /** When the left list has each name once, the difference drops exactly the names of the right list. */
  lemma DiffByName(d: seq<Pkg>, l: seq<Pkg>, r: seq<Pkg>)
    requires UniquelyNamed(l) && IsDiff(d, l, r)
    ensures UniquelyNamed(d)
    ensures forall p :: p in d <==> p in l && !Named(r, p.name)
  {
    forall i, j | 0 <= i < j < |d| ensures d[i].name != d[j].name {
      if d[i].name == d[j].name {
        EqualsTwice(d[i], d, i, j);
        EqualsCount(d[i], l);
        assert false;
      }
    }
    forall p ensures p in d <==> p in l && !Named(r, p.name) {
      EqualsMember(p, d, p);
      EqualsMember(p, l, p);
      EqualsCount(p, l);
      EqualsSome(p, r);
    }
  }

  /** The packages of `local`, which has each name once, whose name is not in `packages`. */
  method DropNamed(local: seq<Pkg>, packages: seq<Pkg>) returns (d: seq<Pkg>)
    requires UniquelyNamed(local)
    ensures UniquelyNamed(d) && SortedData(d, PkgCmp)
    ensures forall p :: p in d <==> p in local && !Named(packages, p.name)
  {
    var l, ls := FromSeq(local);
    var r, rs := FromSeq(packages);
    PkgCmpOrders();
    d := Diff(l, r, PkgCmp, ls, rs);
    DiffByName(d, local, packages);
  }
}
