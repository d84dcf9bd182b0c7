/** _alpm_recursedeps (lib/libalpm/deps.c): the dependencies that only the packages to remove need. */
module RecurseDeps {
  import opened Packages
  import opened Deps

  predicate Eligible(p: Pkg, all: bool) {
    all || p.reason == AsDependency
  }

  // ---------- specification ----------

  /** The installed packages that are not targets themselves. */
  predicate Others(installed: seq<Pkg>, targs: seq<Pkg>, p: Pkg) {
    p in installed && !Named(targs, p.name)
  }

  /** A chain of dependencies that starts at a target and runs through eligible installed packages. */
  ghost predicate ChainFrom(installed: seq<Pkg>, targs: seq<Pkg>, all: bool, path: seq<Pkg>) {
    && path != []
    && (exists t :: t in targs && DependsOn(t, path[0]))
    && (forall i :: 0 <= i < |path| ==> Others(installed, targs, path[i]) && Eligible(path[i], all))
    && (forall i :: 0 < i < |path| ==> DependsOn(path[i - 1], path[i]))
  }

  ghost predicate Reachable(installed: seq<Pkg>, targs: seq<Pkg>, all: bool, p: Pkg) {
    exists path :: ChainFrom(installed, targs, all, path) && path[|path| - 1] == p
  }

  /** R can be removed with the targets: all of it is reachable, and nothing that stays depends on it. */
  ghost predicate Removable(installed: seq<Pkg>, targs: seq<Pkg>, all: bool, R: set<Pkg>) {
    && (forall p :: p in R ==> Reachable(installed, targs, all, p))
    && (forall p, q :: Others(installed, targs, p) && p !in R && q in R ==> !DependsOn(p, q))
  }

  /** The largest set that can be removed with the targets. */
  ghost predicate LargestRemovable(installed: seq<Pkg>, targs: seq<Pkg>, all: bool, R: set<Pkg>) {
    && Removable(installed, targs, all, R)
    && forall S :: Removable(installed, targs, all, S) ==> S <= R
  }

  lemma {:induction false} ReachableStep(installed: seq<Pkg>, targs: seq<Pkg>, all: bool, p: Pkg, q: Pkg)
    requires Reachable(installed, targs, all, p) && Others(installed, targs, q) && Eligible(q, all) && DependsOn(p, q)
    ensures Reachable(installed, targs, all, q)
  {
    var path :| ChainFrom(installed, targs, all, path) && path[|path| - 1] == p;
    assert ChainFrom(installed, targs, all, path + [q]);
  }

  lemma ReachableStart(installed: seq<Pkg>, targs: seq<Pkg>, all: bool, t: Pkg, q: Pkg)
    requires t in targs && Others(installed, targs, q) && Eligible(q, all) && DependsOn(t, q)
    ensures Reachable(installed, targs, all, q)
  {
    assert ChainFrom(installed, targs, all, [q]);
  }

  /** A set closed under eligible dependencies, and holding those of the targets, holds all that is reachable. */
  lemma {:induction false} ReachableWithin(installed: seq<Pkg>, targs: seq<Pkg>, all: bool, rem: set<Pkg>,
                                           path: seq<Pkg>)
    requires ChainFrom(installed, targs, all, path)
    requires forall t, q :: t in targs && Others(installed, targs, q) && Eligible(q, all) && DependsOn(t, q) ==>
      q in rem
    requires forall p, q :: p in rem && Others(installed, targs, q) && Eligible(q, all) && DependsOn(p, q) ==> q in rem
    ensures path[|path| - 1] in rem
    decreases |path|
  {
    if |path| > 1 {
      var n := |path| - 1;
      assert ChainFrom(installed, targs, all, path[..n]);
      ReachableWithin(installed, targs, all, rem, path[..n]);
    }
  }

  // ---------- moving dependencies between lists ----------

  predicate Moves(pkg: Pkg, q: Pkg, all: bool) {
    Eligible(q, all) && DependsOn(pkg, q)
  }

  lemma AddOne(a: multiset<Pkg>, b: multiset<Pkg>, c: multiset<Pkg>, d: multiset<Pkg>, x: Pkg)
    requires a + b == c + d
    ensures a + (b + multiset{x}) == (c + multiset{x}) + d == (a + multiset{x}) + b
  {
    assert a + (b + multiset{x}) == (a + b) + multiset{x};
    assert (a + multiset{x}) + b == (a + b) + multiset{x};
    assert (c + multiset{x}) + d == (c + d) + multiset{x};
  }

  /** _alpm_select_depends: moves the (eligible) dependencies of pkg from one list to the end of the other. */
  method SelectDepends(from0: seq<Pkg>, to0: seq<Pkg>, pkg: Pkg, all: bool) returns (from: seq<Pkg>, to: seq<Pkg>)
    ensures multiset(from) + multiset(to) == multiset(from0) + multiset(to0)
    ensures to0 <= to && |from| + |to| == |from0| + |to0|
    ensures forall k :: 0 <= k < |from| ==> from[k] in from0 && !Moves(pkg, from[k], all)
    ensures forall k :: |to0| <= k < |to| ==> to[k] in from0 && Moves(pkg, to[k], all)
  {
    from, to := [], to0;
    for i := 0 to |from0|
      invariant multiset(from) + multiset(to) == multiset(from0[..i]) + multiset(to0)
      invariant to0 <= to && |from| + |to| == i + |to0|
      invariant forall k :: 0 <= k < |from| ==> from[k] in from0 && !Moves(pkg, from[k], all)
      invariant forall k :: |to0| <= k < |to| ==> to[k] in from0 && Moves(pkg, to[k], all)
    {
      assert multiset(from0[..i + 1]) == multiset(from0[..i]) + multiset{from0[i]} by {
        assert from0[..i + 1] == from0[..i] + [from0[i]];
      }
      AddOne(multiset(from), multiset(to), multiset(from0[..i]), multiset(to0), from0[i]);
      if Moves(pkg, from0[i], all) {
        assert multiset(to + [from0[i]]) == multiset(to) + multiset{from0[i]};
        to := to + [from0[i]];
      } else {
        assert multiset(from + [from0[i]]) == multiset(from) + multiset{from0[i]};
        from := from + [from0[i]];
      }
    }
    assert from0[..|from0|] == from0;
  }

  function Elements(s: seq<Pkg>): (r: set<Pkg>) {
    set p | p in s
  }

  /** keep and rem together are the installed packages that are not targets, each once. */
  ghost predicate Splits(installed: seq<Pkg>, targs: seq<Pkg>, keep: seq<Pkg>, rem: seq<Pkg>) {
    && (forall p :: p in keep || p in rem <==> Others(installed, targs, p))
    && (forall p :: p in keep ==> p !in rem)
    && multiset(keep + rem) <= multiset(installed)
  }
  
  lemma MovedSplit(installed: seq<Pkg>, targs: seq<Pkg>, from0: seq<Pkg>, to0: seq<Pkg>, from: seq<Pkg>, to: seq<Pkg>)
    requires UniquelyNamed(installed) && Splits(installed, targs, from0, to0)
    requires multiset(from) + multiset(to) == multiset(from0) + multiset(to0)
    ensures Splits(installed, targs, from, to)
  {
    forall p ensures p in from || p in to <==> p in from0 || p in to0 {
      assert p in from || p in to <==> p in multiset(from) + multiset(to);
      assert p in from0 || p in to0 <==> p in multiset(from0) + multiset(to0);
    }
    assert multiset(from + to) == multiset(from) + multiset(to) == multiset(from0 + to0);
    forall p | p in from ensures p !in to {
      if p in to {
        assert p in multiset(from) && p in multiset(to);
        assert multiset(installed)[p] >= 2;
        OnceInstalled(installed, p);
      }
    }
  }

  lemma {:induction false} OnceInstalled(installed: seq<Pkg>, p: Pkg)
    requires UniquelyNamed(installed)
    ensures multiset(installed)[p] <= 1
  {
    if installed != [] {
      var n := |installed| - 1;
      OnceInstalled(installed[..n], p);
      assert installed == installed[..n] + [installed[n]];
      if p == installed[n] {
        assert p !in installed[..n];
        assert p !in multiset(installed[..n]);
      }
    }
  }

  // ---------- the whole computation ----------

  ghost predicate AllReachable(installed: seq<Pkg>, targs: seq<Pkg>, all: bool, rem: seq<Pkg>) {
    forall p :: p in rem ==> Reachable(installed, targs, all, p)
  }

  /** No package of ps has an (eligible) dependency left in qs. */
  ghost predicate NoneMoves(ps: seq<Pkg>, qs: seq<Pkg>, all: bool) {
    forall k, j :: 0 <= k < |ps| && 0 <= j < |qs| ==> !Moves(ps[k], qs[j], all)
  }

  lemma NoneMovesStep(ps: seq<Pkg>, i: nat, qs: seq<Pkg>, qs': seq<Pkg>, all: bool)
    requires i < |ps| && NoneMoves(ps[..i], qs, all)
    requires forall j :: 0 <= j < |qs'| ==> qs'[j] in qs && !Moves(ps[i], qs'[j], all)
    ensures NoneMoves(ps[..i + 1], qs', all)
  {
    var ps' := ps[..i + 1];
    forall k, j | 0 <= k < |ps'| && 0 <= j < |qs'| ensures !Moves(ps'[k], qs'[j], all) {
      if k < i {
        assert ps[..i][k] == ps'[k];
        var j' :| 0 <= j' < |qs| && qs[j'] == qs'[j];
        assert !Moves(ps[..i][k], qs[j'], all);
      }
    }
  }

  lemma NoneMovesFewer(ps: seq<Pkg>, qs: seq<Pkg>, qs': seq<Pkg>, all: bool)
    requires NoneMoves(ps, qs, all) && forall j :: 0 <= j < |qs'| ==> qs'[j] in qs
    ensures NoneMoves(ps, qs', all)
  {
    forall k, j | 0 <= k < |ps| && 0 <= j < |qs'| ensures !Moves(ps[k], qs'[j], all) {
      var j' :| 0 <= j' < |qs| && qs[j'] == qs'[j];
      assert !Moves(ps[k], qs[j'], all);
    }
  }

  /** First phase, targets: their dependencies are candidates. */
  method SelectFromTargets(installed: seq<Pkg>, targs: seq<Pkg>, all: bool, keep0: seq<Pkg>)
    returns (keep: seq<Pkg>, rem: seq<Pkg>)
    requires UniquelyNamed(installed) && Splits(installed, targs, keep0, [])
    ensures Splits(installed, targs, keep, rem) && AllReachable(installed, targs, all, rem)
    ensures NoneMoves(targs, keep, all)
  {
    keep, rem := keep0, [];
    for i := 0 to |targs|
      invariant Splits(installed, targs, keep, rem) && AllReachable(installed, targs, all, rem)
      invariant NoneMoves(targs[..i], keep, all)
    {
      var keep', rem' := SelectDepends(keep, rem, targs[i], all);
      MovedSplit(installed, targs, keep, rem, keep', rem');
      NoneMovesStep(targs, i, keep, keep', all);
      MovedReachable(installed, targs, all, rem, rem', keep, targs[i]);
      keep, rem := keep', rem';
    }
    assert targs[..|targs|] == targs;
  }

  lemma MovedReachable(installed: seq<Pkg>, targs: seq<Pkg>, all: bool, rem: seq<Pkg>, rem': seq<Pkg>, keep: seq<Pkg>,
                       pkg: Pkg)
    requires AllReachable(installed, targs, all, rem) && rem <= rem'
    requires pkg in targs || Reachable(installed, targs, all, pkg)
    requires forall p :: p in keep ==> Others(installed, targs, p)
    requires forall k :: |rem| <= k < |rem'| ==> rem'[k] in keep && Moves(pkg, rem'[k], all)
    ensures AllReachable(installed, targs, all, rem')
  {
    forall p | p in rem' ensures Reachable(installed, targs, all, p) {
      var k :| 0 <= k < |rem'| && rem'[k] == p;
      if k < |rem| {
        assert p == rem[k];
      } else if pkg in targs {
        ReachableStart(installed, targs, all, pkg, p);
      } else {
        ReachableStep(installed, targs, all, pkg, p);
      }
    }
  }

  /** One candidate: what it depends on becomes a candidate too. */
  method SelectFrom(installed: seq<Pkg>, targs: seq<Pkg>, all: bool, keep0: seq<Pkg>, rem0: seq<Pkg>, i: nat)
    returns (keep: seq<Pkg>, rem: seq<Pkg>)
    requires UniquelyNamed(installed) && Splits(installed, targs, keep0, rem0) && i < |rem0|
    requires AllReachable(installed, targs, all, rem0) && NoneMoves(targs, keep0, all)
    requires NoneMoves(rem0[..i], keep0, all)
    ensures Splits(installed, targs, keep, rem) && AllReachable(installed, targs, all, rem) && |rem0| <= |rem|
    ensures NoneMoves(targs, keep, all) && NoneMoves(rem[..i + 1], keep, all)
    ensures |keep| < |keep0| || (|keep| == |keep0| && |rem| == |rem0|)
  {
    keep, rem := SelectDepends(keep0, rem0, rem0[i], all);
    assert rem0[i] in rem0;
    MovedSplit(installed, targs, keep0, rem0, keep, rem);
    NoneMovesStep(rem0, i, keep0, keep, all);
    NoneMovesFewer(targs, keep0, keep, all);
    MovedReachable(installed, targs, all, rem0, rem, keep0, rem0[i]);
    assert rem[..i + 1] == rem0[..i + 1];
  }

  /** First phase, candidates: their dependencies are candidates too. */
  method SelectFromCandidates(installed: seq<Pkg>, targs: seq<Pkg>, all: bool, keep0: seq<Pkg>, rem0: seq<Pkg>)
    returns (keep: seq<Pkg>, rem: seq<Pkg>)
    requires UniquelyNamed(installed) && Splits(installed, targs, keep0, rem0)
    requires AllReachable(installed, targs, all, rem0) && NoneMoves(targs, keep0, all)
    ensures Splits(installed, targs, keep, rem) && AllReachable(installed, targs, all, rem)
    ensures NoneMoves(targs, keep, all) && NoneMoves(rem, keep, all)
  {
    keep, rem := keep0, rem0;
    var i := 0;
    while i < |rem|
      invariant 0 <= i <= |rem|
      invariant Splits(installed, targs, keep, rem) && AllReachable(installed, targs, all, rem)
      invariant NoneMoves(targs, keep, all) && NoneMoves(rem[..i], keep, all)
      decreases |keep|, |rem| - i
    {
      keep, rem := SelectFrom(installed, targs, all, keep, rem, i);
      i := i + 1;
    }
    assert rem[..i] == rem;
  }

  /** The candidates that the first phase selects are exactly the reachable packages. */
  lemma CandidatesAreReachable(installed: seq<Pkg>, targs: seq<Pkg>, all: bool, keep: seq<Pkg>, rem: seq<Pkg>)
    requires Splits(installed, targs, keep, rem) && NoneMoves(targs, keep, all) && NoneMoves(rem, keep, all)
    ensures forall p :: Reachable(installed, targs, all, p) ==> p in rem
  {
    forall t, q | (t in targs || t in rem) && Others(installed, targs, q) && Eligible(q, all) && DependsOn(t, q)
      ensures q in rem
    {
      assert q in keep || q in rem;
      assert Moves(t, q, all);
    }
    forall p | Reachable(installed, targs, all, p) ensures p in rem {
      var path :| ChainFrom(installed, targs, all, path) && path[|path| - 1] == p;
      ReachableWithin(installed, targs, all, Elements(rem), path);
    }
  }

  /** Whatever can be removed with the targets is still among the candidates. */
  ghost predicate CoversRemovable(installed: seq<Pkg>, targs: seq<Pkg>, all: bool, rem: seq<Pkg>) {
    forall S :: Removable(installed, targs, all, S) ==> S <= Elements(rem)
  }

  lemma StillCovers(installed: seq<Pkg>, targs: seq<Pkg>, all: bool, keep: seq<Pkg>, rem: seq<Pkg>, pkg: Pkg,
                    rem': seq<Pkg>)
    requires Splits(installed, targs, keep, rem) && pkg in keep && CoversRemovable(installed, targs, all, rem)
    requires forall q :: q in rem && q !in rem' ==> DependsOn(pkg, q)
    ensures CoversRemovable(installed, targs, all, rem')
  {
    forall S | Removable(installed, targs, all, S) ensures S <= Elements(rem') {
      assert S <= Elements(rem) && pkg !in S;
      forall q | q in S ensures q in rem' {
        assert q in Elements(rem);
        assert !DependsOn(pkg, q);
      }
    }
  }

  /** Second phase: whatever a kept package needs is kept too. */
  method KeepNeeded(installed: seq<Pkg>, targs: seq<Pkg>, all: bool, keep0: seq<Pkg>, rem0: seq<Pkg>)
    returns (keep: seq<Pkg>, rem: seq<Pkg>)
    requires UniquelyNamed(installed) && Splits(installed, targs, keep0, rem0)
    requires AllReachable(installed, targs, all, rem0) && CoversRemovable(installed, targs, all, rem0)
    ensures Splits(installed, targs, keep, rem)
    ensures AllReachable(installed, targs, all, rem) && CoversRemovable(installed, targs, all, rem)
    ensures rem == [] || NoneMoves(keep, rem, true)
  {
    keep, rem := keep0, rem0;
    var i := 0;
    while i < |keep| && rem != []
      invariant 0 <= i <= |keep|
      invariant Splits(installed, targs, keep, rem)
      invariant AllReachable(installed, targs, all, rem) && CoversRemovable(installed, targs, all, rem)
      invariant NoneMoves(keep[..i], rem, true)
      decreases |rem|, |keep| - i
    {
      var rem', keep' := SelectDepends(rem, keep, keep[i], true);
      SplitsSwap(installed, targs, keep, rem);
      MovedSplit(installed, targs, rem, keep, rem', keep');
      SplitsSwap(installed, targs, rem', keep');
      NoneMovesStep(keep, i, rem, rem', true);
      MovedAll(rem, keep, keep[i], rem', keep');
      StillCovers(installed, targs, all, keep, rem, keep[i], rem');
      assert keep'[..i + 1] == keep[..i + 1];
      keep, rem, i := keep', rem', i + 1;
    }
    if rem != [] { assert keep[..i] == keep; }
  }

  lemma SplitsSwap(installed: seq<Pkg>, targs: seq<Pkg>, a: seq<Pkg>, b: seq<Pkg>)
    requires Splits(installed, targs, a, b)
    ensures Splits(installed, targs, b, a)
  {
    assert multiset(a + b) == multiset(b + a);
  }

  /** What leaves the list is what the package depends on. */
  lemma MovedAll(from0: seq<Pkg>, to0: seq<Pkg>, pkg: Pkg, from: seq<Pkg>, to: seq<Pkg>)
    requires multiset(from) + multiset(to) == multiset(from0) + multiset(to0) && to0 <= to
    requires forall k :: 0 <= k < |from| ==> from[k] in from0
    requires forall k :: |to0| <= k < |to| ==> to[k] in from0 && Moves(pkg, to[k], true)
    requires forall p :: p in from0 ==> p !in to0
    ensures forall q :: q in from0 && q !in from ==> DependsOn(pkg, q)
    ensures forall q :: q in from ==> q in from0
  {
    forall q | q in from0 && q !in from ensures DependsOn(pkg, q) {
      assert q in multiset(from0) && q !in multiset(from);
      assert q in multiset(from) + multiset(to);
      assert q in to;
      var k :| 0 <= k < |to| && to[k] == q;
      assert q !in to0 && to[..|to0|] == to0;
    }
  }

  /** alpm_list_remove with a name comparison, for every target. */
  method DropTargets(installed: seq<Pkg>, targs: seq<Pkg>) returns (keep: seq<Pkg>)
    requires UniquelyNamed(installed)
    ensures Splits(installed, targs, keep, [])
  {
    keep := installed;
    for i := 0 to |targs|
      invariant UniquelyNamed(keep) && multiset(keep) <= multiset(installed)
      invariant forall p :: p in keep <==> Others(installed, targs[..i], p)
    {
      keep := DropName(keep, targs[i].name);
      forall name ensures Named(targs[..i + 1], name) <==> Named(targs[..i], name) || targs[i].name == name {
        NamedStep(targs, i, name);
      }
    }
    assert targs[..|targs|] == targs && keep + [] == keep;
  }

  lemma NamedStep(s: seq<Pkg>, i: nat, name: string)
    requires i < |s|
    ensures Named(s[..i + 1], name) <==> Named(s[..i], name) || s[i].name == name
  {
    var s' := s[..i + 1];
    assert forall k :: 0 <= k < i ==> s'[k] == s[..i][k];
    assert s'[i] == s[i];
  }

  lemma CutUnique(s: seq<Pkg>, i: nat)
    requires UniquelyNamed(s) && i < |s|
    ensures UniquelyNamed(s[..i] + s[i + 1..])
  {
    var r := s[..i] + s[i + 1..];
    assert forall k :: 0 <= k < |r| ==> r[k] == s[if k < i then k else k + 1];
  }

  lemma CutOut(s: seq<Pkg>, i: nat)
    requires UniquelyNamed(s) && i < |s|
    ensures var r := s[..i] + s[i + 1..];
      UniquelyNamed(r) && multiset(r) <= multiset(s) && forall p :: p in r <==> p in s && p.name != s[i].name
  {
    CutUnique(s, i);
    var a, b := s[..i], s[i + 1..];
    assert s == a + ([s[i]] + b);
    assert forall k :: 0 <= k < |a| ==> a[k].name != s[i].name;
    assert forall k :: 0 <= k < |b| ==> b[k].name != s[i].name;
  }

  method DropName(s: seq<Pkg>, name: string) returns (r: seq<Pkg>)
    requires UniquelyNamed(s)
    ensures UniquelyNamed(r) && multiset(r) <= multiset(s)
    ensures forall p :: p in r <==> p in s && p.name != name
  {
    for i := 0 to |s|
      invariant forall j :: 0 <= j < i ==> s[j].name != name
    {
      if s[i].name == name {
        r := s[..i] + s[i + 1..];
        CutOut(s, i);
        return;
      }
    }
    r := s;
  }

  /** An installed package that a target depends on, and no other package that stays. */
  ghost predicate OnlyNeededBy(installed: seq<Pkg>, targs: seq<Pkg>, p: Pkg) {
    && p in installed && !Named(targs, p.name) && (exists t :: t in targs && DependsOn(t, p))
    && forall q :: q in installed && !Named(targs, q.name) && q != p ==> !DependsOn(q, p)
  }

  /** Orphans were installed as dependencies, unless all count, and what only the targets need is one. */
  lemma OrphansAre(installed: seq<Pkg>, targs: seq<Pkg>, all: bool, R: set<Pkg>, p: Pkg)
    requires LargestRemovable(installed, targs, all, R)
    ensures p in R ==> p in installed && !Named(targs, p.name) && (all || p.reason == AsDependency)
    ensures OnlyNeededBy(installed, targs, p) && (all || p.reason == AsDependency) ==> p in R
  {
    if OnlyNeededBy(installed, targs, p) && (all || p.reason == AsDependency) {
      assert ChainFrom(installed, targs, all, [p]);
      assert Removable(installed, targs, all, {p});
    }
  }

  method AddOrphans(installed: seq<Pkg>, targs: seq<Pkg>, all: bool) returns (r: seq<Pkg>)
    requires UniquelyNamed(installed)
    ensures targs <= r && LargestRemovable(installed, targs, all, Elements(r[|targs|..]))
    ensures multiset(r[|targs|..]) <= multiset(installed)
  {
    var keep := DropTargets(installed, targs);
    var rem;
    keep, rem := SelectFromTargets(installed, targs, all, keep);
    keep, rem := SelectFromCandidates(installed, targs, all, keep, rem);
    CandidatesAreReachable(installed, targs, all, keep, rem);
    keep, rem := KeepNeeded(installed, targs, all, keep, rem);
    IsLargest(installed, targs, all, keep, rem);
    r := targs + rem;
    assert r[|targs|..] == rem;
  }

  lemma IsLargest(installed: seq<Pkg>, targs: seq<Pkg>, all: bool, keep: seq<Pkg>, rem: seq<Pkg>)
    requires Splits(installed, targs, keep, rem) && AllReachable(installed, targs, all, rem)
    requires CoversRemovable(installed, targs, all, rem) && (rem == [] || NoneMoves(keep, rem, true))
    ensures LargestRemovable(installed, targs, all, Elements(rem)) && multiset(rem) <= multiset(installed)
  {
    forall p, q | Others(installed, targs, p) && p !in Elements(rem) && q in Elements(rem) ensures !DependsOn(p, q) {
      assert p in keep;
      var k :| 0 <= k < |keep| && keep[k] == p;
      var j :| 0 <= j < |rem| && rem[j] == q;
      assert !Moves(keep[k], rem[j], true);
    }
    assert multiset(keep + rem) == multiset(keep) + multiset(rem);
  }
}
