/** Preparing a removal (lib/libalpm/remove.c): cascading it to dependents, or giving up what is needed. */
module RemovePrepare {
  import opened Packages
  import opened Deps
  import opened RecurseDeps
  import Version
  import VersionOrder

  /** What a removal looks at and does not change. */
  datatype System = System(local: seq<Pkg>, assumed: seq<Depend>, nodepversion: bool)

  function Removal(s: System, rem: seq<Pkg>): (c: Change) {
    Change(s.local, rem, [], s.assumed, s.nodepversion)
  }

  /** Removing rem breaks no dependency. */
  ghost predicate Safe(s: System, rem: seq<Pkg>) {
    KeepsDependencies(Removal(s, rem))
  }

  ghost predicate Covers(big: seq<Pkg>, small: seq<Pkg>) {
    forall p :: p in small ==> Named(big, p.name)
  }

  // ---------- where a complaint comes from ----------

  lemma {:induction false} FromPkg(c: Change, p: Pkg, deps: seq<Depend>, reverse: bool, m: Missing) returns (d: Depend)
    requires m in PkgComplaints(c, p, deps, reverse)
    ensures d in deps && Complaint(c, p, d, reverse) == [m]
  {
    var n := |deps| - 1;
    if m in Complaint(c, p, deps[n], reverse) {
      d := deps[n];
    } else {
      d := FromPkg(c, p, deps[..n], reverse, m);
    }
  }

  lemma {:induction false} FromList(c: Change, pkgs: seq<Pkg>, reverse: bool, m: Missing) returns (p: Pkg, d: Depend)
    requires m in Complaints(c, pkgs, reverse)
    ensures p in pkgs && d in p.depends && Complaint(c, p, d, reverse) == [m]
  {
    var n := |pkgs| - 1;
    if m in PkgComplaints(c, pkgs[n], pkgs[n].depends, reverse) {
      p := pkgs[n];
      d := FromPkg(c, p, p.depends, reverse, m);
    } else {
      p, d := FromList(c, pkgs[..n], reverse, m);
    }
  }

  /** Each complaint about a removal names an installed package that stays, and one that goes. */
  lemma ComplaintNames(s: System, rem: seq<Pkg>, m: Missing) returns (p: Pkg, d: Depend)
    requires m in BadDeps(Removal(s, rem), true)
    ensures p in s.local && !Named(rem, p.name) && m.target == p.name && d in p.depends
    ensures var e := Compared(s.nodepversion, d); SatisfiedBy(e, s.local) && !SatisfiedAfter(Removal(s, rem), e)
    ensures m.causing != None && Named(rem, m.causing.value)
    ensures exists q :: q in s.local && q.name == m.causing.value && Satisfies(q, Compared(s.nodepversion, d))
  {
    var c := Removal(s, rem);
    p, d := FromList(c, Kept(c), true, m);
    SelectMembers(c, c.local, false, p);
    SplitSatisfied(c, Compared(c.nodepversion, d));
    var name := FirstSatisfier(Modified(c), Compared(c.nodepversion, d));
    var i :| 0 <= i < |Modified(c)| && Modified(c)[i].name == name
      && Satisfies(Modified(c)[i], Compared(c.nodepversion, d));
    SelectMembers(c, c.local, true, Modified(c)[i]);
  }

  /** A package whose dependency breaks belongs to every safe removal that covers this one. */
  lemma BrokenMustGo(s: System, rem: seq<Pkg>, big: seq<Pkg>, m: Missing)
    requires m in BadDeps(Removal(s, rem), true) && Covers(big, rem) && Safe(s, big)
    ensures Named(big, m.target)
  {
    var p, d := ComplaintNames(s, rem, m);
    var c, c' := Removal(s, rem), Removal(s, big);
    var e := Compared(c.nodepversion, d);
    if !Named(big, p.name) {
      assert !Touched(c', p) && Compared(c'.nodepversion, d) == e;
      assert SatisfiedAfter(c', e);
      var i :| 0 <= i < |Kept(c')| && Satisfies(Kept(c')[i], e);
      var q := Kept(c')[i];
      SelectMembers(c', s.local, false, q);
      assert !Touched(c, q);
      SelectMembers(c, s.local, false, q);
    }
  }

  // ---------- cascade ----------

  /** Adds the packages that the complaints name. */
  method PullIn(s: System, rem0: seq<Pkg>, lp: seq<Missing>) returns (rem: seq<Pkg>)
    requires UniquelyNamed(s.local)
    ensures rem0 <= rem && (UniquelyNamed(rem0) ==> UniquelyNamed(rem))
    ensures forall p :: p in rem && p !in rem0 ==> p in s.local && exists m :: m in lp && m.target == p.name
    ensures forall m :: m in lp && Named(s.local, m.target) ==> Named(rem, m.target)
  {
    rem := rem0;
    for i := 0 to |lp|
      invariant rem0 <= rem && (UniquelyNamed(rem0) ==> UniquelyNamed(rem))
      invariant forall p :: p in rem && p !in rem0 ==> p in s.local && exists m :: m in lp && m.target == p.name
      invariant forall k :: 0 <= k < i && Named(s.local, lp[k].target) ==> Named(rem, lp[k].target)
    {
      var info := FindPkg(s.local, lp[i].target);
      if info != None && !Named(rem, info.value.name) {
        ghost var before := rem;
        rem := rem + [info.value];
        assert rem[|before|] == info.value;
        forall name ensures Named(before, name) ==> Named(rem, name) { NamedLonger(before, rem, name); }
      }
    }
  }

  lemma CoversExtended(big: seq<Pkg>, rem: seq<Pkg>, rem': seq<Pkg>, lp: seq<Missing>)
    requires Covers(big, rem) && forall m :: m in lp ==> Named(big, m.target)
    requires forall p :: p in rem' && p !in rem ==> exists m :: m in lp && m.target == p.name
    ensures Covers(big, rem')
  {}

  ghost function Standing(s: System, rem: seq<Pkg>): (r: set<Pkg>) {
    set p | p in s.local && !Named(rem, p.name)
  }

  lemma StandingShrinks(s: System, rem: seq<Pkg>, rem': seq<Pkg>, p: Pkg)
    requires rem <= rem' && p in s.local && !Named(rem, p.name) && Named(rem', p.name)
    ensures Standing(s, rem') < Standing(s, rem)
  {
    forall q | q in Standing(s, rem') ensures q in Standing(s, rem) {
      NamedLonger(rem, rem', q.name);
    }
    assert p in Standing(s, rem) && p !in Standing(s, rem');
  }

  /** remove_prepare_cascade: ends with the least removal that covers the request and breaks nothing. */
  method Cascade(s: System, rem0: seq<Pkg>, lp0: seq<Missing>) returns (rem: seq<Pkg>)
    requires UniquelyNamed(s.local) && lp0 == BadDeps(Removal(s, rem0), true)
    ensures rem0 <= rem && Safe(s, rem) && (UniquelyNamed(rem0) ==> UniquelyNamed(rem))
    ensures forall p :: p in rem && p !in rem0 ==> p in s.local
    ensures forall big :: Covers(big, rem0) && Safe(s, big) ==> Covers(big, rem)
  {
    rem := rem0;
    var lp := lp0;
    while lp != []
      invariant lp == BadDeps(Removal(s, rem), true)
      invariant rem0 <= rem && (UniquelyNamed(rem0) ==> UniquelyNamed(rem))
      invariant forall p :: p in rem && p !in rem0 ==> p in s.local
      invariant forall big :: Covers(big, rem0) && Safe(s, big) ==> Covers(big, rem)
      decreases Standing(s, rem)
    {
      ghost var before := rem;
      ghost var p, d := ComplaintNames(s, rem, lp[0]);
      rem := PullIn(s, rem, lp);
      assert Named(s.local, lp[0].target) && lp[0] in lp;
      StandingShrinks(s, before, rem, p);
      forall big | Covers(big, rem0) && Safe(s, big) ensures Covers(big, rem) {
        forall m | m in lp ensures Named(big, m.target) { BrokenMustGo(s, before, big, m); }
        CoversExtended(big, before, rem, lp);
      }
      lp := CheckDeps(Removal(s, rem), true);
    }
    CheckDepsExact(Removal(s, rem));
  }

  // ---------- keep needed ----------

  /** Drops the packages that the complaints say are needed. */
  method DropNeeded(rem0: seq<Pkg>, lp: seq<Missing>) returns (rem: seq<Pkg>)
    requires UniquelyNamed(rem0) && forall m :: m in lp ==> m.causing != None
    ensures UniquelyNamed(rem) && multiset(rem) <= multiset(rem0)
    ensures forall p :: p in rem <==> p in rem0 && forall m :: m in lp ==> m.causing.value != p.name
  {
    rem := rem0;
    for i := 0 to |lp|
      invariant UniquelyNamed(rem) && multiset(rem) <= multiset(rem0)
      invariant forall p :: p in rem <==> p in rem0 && forall k :: 0 <= k < i ==> lp[k].causing.value != p.name
    {
      rem := DropName(rem, lp[i].causing.value);
    }
  }

  /** A package that stays has a dependency that the installed package of this name satisfies. */
  ghost predicate NeededName(s: System, rem: seq<Pkg>, name: string) {
    exists p, d, q :: p in s.local && !Named(rem, p.name) && d in p.depends
      && q in s.local && q.name == name && Satisfies(q, Compared(s.nodepversion, d))
  }

  lemma StillNeeded(s: System, before: seq<Pkg>, rem: seq<Pkg>, name: string)
    requires NeededName(s, before, name) && forall p :: p in rem ==> p in before
    ensures NeededName(s, rem, name)
  {
    var p, d, q :| p in s.local && !Named(before, p.name) && d in p.depends
      && q in s.local && q.name == name && Satisfies(q, Compared(s.nodepversion, d));
    forall k | 0 <= k < |rem| ensures rem[k].name != p.name { assert rem[k] in before; }
  }

  /** remove_prepare_keep_needed: ends with a part of the request that breaks nothing, and what it drops is
      needed by a package that stays. */
  method KeepNeededOnes(s: System, rem0: seq<Pkg>, lp0: seq<Missing>) returns (rem: seq<Pkg>)
    requires UniquelyNamed(rem0) && lp0 == BadDeps(Removal(s, rem0), true)
    ensures UniquelyNamed(rem) && multiset(rem) <= multiset(rem0) && Safe(s, rem)
    ensures forall p :: p in rem0 && p !in rem ==> NeededName(s, rem, p.name)
    ensures lp0 == [] ==> rem == rem0
  {
    rem := rem0;
    var lp := lp0;
    while lp != []
      invariant lp == BadDeps(Removal(s, rem), true)
      invariant UniquelyNamed(rem) && multiset(rem) <= multiset(rem0)
      invariant forall p :: p in rem0 && p !in rem ==> NeededName(s, rem, p.name)
      invariant lp0 == [] ==> rem == rem0
      decreases |rem|
    {
      ghost var before := rem;
      forall m | m in lp
        ensures m.causing != None && Named(rem, m.causing.value) && NeededName(s, rem, m.causing.value)
      {
        var p, d := ComplaintNames(s, rem, m);
      }
      rem := DropNeeded(rem, lp);
      forall p | p in rem0 && p !in rem ensures NeededName(s, rem, p.name) {
        StillNeeded(s, before, rem, p.name);
      }
      assert |rem| < |before| by {
        assert lp[0] in lp;
        var k :| 0 <= k < |before| && before[k].name == lp[0].causing.value;
        assert before[k] in before && before[k] !in rem;
        Shorter(before, rem, before[k]);
      }
      lp := CheckDeps(Removal(s, rem), true);
    }
    CheckDepsExact(Removal(s, rem));
  }

  lemma Shorter(big: seq<Pkg>, small: seq<Pkg>, p: Pkg)
    requires multiset(small) <= multiset(big) && p in big && p !in small
    ensures |small| < |big|
  {
    assert p in multiset(big) && p !in multiset(small);
    var rest := multiset(big) - multiset(small);
    assert multiset(big) == multiset(small) + rest && p in rest;
    assert |multiset(big)| == |multiset(small)| + |rest|;
  }

  // ---------- the whole preparation ----------

  datatype Flags = Flags(nodeps: bool, cascade: bool, recurse: bool, recurseall: bool, unneeded: bool)

  /** What stays and is satisfied by an orphan, in a comparison that may ignore versions, is satisfied otherwise. */
  ghost predicate MetElsewhere(s: System, rem: seq<Pkg>, r: seq<Pkg>)
    requires rem <= r
  {
    forall p, d, q ::
      (p in s.local && !Named(r, p.name) && d in p.depends && q in r[|rem|..]
        && Satisfies(q, Compared(s.nodepversion, d)))
      ==> SatisfiedAfter(Removal(s, r), Compared(s.nodepversion, d))
  }

  /** Removing orphans on top of a safe removal is safe if and only if no package that stays relies on one. */
  lemma OrphansSafeExactly(s: System, rem: seq<Pkg>, all: bool, r: seq<Pkg>)
    requires UniquelyNamed(s.local) && Safe(s, rem) && rem <= r
    requires LargestRemovable(s.local, rem, all, Elements(r[|rem|..]))
    ensures Safe(s, r) <==> MetElsewhere(s, rem, r)
  {
    if Safe(s, r) {
      forall p, d, q | p in s.local && !Named(r, p.name) && d in p.depends && q in r[|rem|..]
        && Satisfies(q, Compared(s.nodepversion, d))
        ensures SatisfiedAfter(Removal(s, r), Compared(s.nodepversion, d))
      {
        assert q in Elements(r[|rem|..]);
        ReachableOthers(s.local, rem, all, q);
        var i :| 0 <= i < |s.local| && s.local[i] == q;
        assert SatisfiedBy(Compared(s.nodepversion, d), s.local);
      }
    }
    if MetElsewhere(s, rem, r) {
      forall p, d | p in s.local && !Touched(Removal(s, r), p) && d in p.depends
        && SatisfiedBy(Compared(s.nodepversion, d), s.local)
        ensures SatisfiedAfter(Removal(s, r), Compared(s.nodepversion, d))
      {
        MetAfterOrphans(s, rem, all, r, p, d);
      }
    }
  }

  lemma MetAfterOrphans(s: System, rem: seq<Pkg>, all: bool, r: seq<Pkg>, p: Pkg, d: Depend)
    requires UniquelyNamed(s.local) && Safe(s, rem) && rem <= r && Removable(s.local, rem, all, Elements(r[|rem|..]))
    requires MetElsewhere(s, rem, r) && p in s.local && !Named(r, p.name) && d in p.depends
    requires SatisfiedBy(Compared(s.nodepversion, d), s.local)
    ensures SatisfiedAfter(Removal(s, r), Compared(s.nodepversion, d))
  {
    var c, c', e := Removal(s, rem), Removal(s, r), Compared(s.nodepversion, d);
    NamedLonger(rem, r, p.name);
    assert !Touched(c, p) && SatisfiedAfter(c, e);
    if !Provided(e, s.assumed) {
      var i :| 0 <= i < |Kept(c)| && Satisfies(Kept(c)[i], e);
      var q := Kept(c)[i];
      SelectMembers(c, s.local, false, q);
      if q !in r[|rem|..] {
        StaysNamed(s, rem, r, q, all);
        SelectMembers(c', s.local, false, q);
        assert q in Kept(c');
      }
    }
  }

  /** When versions count, it always is. */
  lemma OrphansSafe(s: System, rem: seq<Pkg>, all: bool, r: seq<Pkg>)
    requires UniquelyNamed(s.local) && !s.nodepversion && Safe(s, rem)
    requires rem <= r && LargestRemovable(s.local, rem, all, Elements(r[|rem|..]))
    ensures Safe(s, r)
  {
    OrphansSafeExactly(s, rem, all, r);
    forall p, d, q | p in s.local && !Named(r, p.name) && d in p.depends && q in r[|rem|..]
      ensures !Satisfies(q, Compared(s.nodepversion, d))
    {
      NamedLonger(rem, r, p.name);
      NotInRest(r, |rem|, p);
      assert Others(s.local, rem, p) && q in Elements(r[|rem|..]) && !DependsOn(p, q);
    }
  }

  lemma NotInRest(r: seq<Pkg>, n: nat, p: Pkg)
    requires n <= |r| && !Named(r, p.name)
    ensures p !in Elements(r[n..])
  {
    assert forall k :: 0 <= k < |r[n..]| ==> r[n..][k] == r[n + k];
  }

  lemma ReachableOthers(local: seq<Pkg>, targs: seq<Pkg>, all: bool, p: Pkg)
    requires Reachable(local, targs, all, p)
    ensures Others(local, targs, p)
  {
    var path :| ChainFrom(local, targs, all, path) && path[|path| - 1] == p;
  }

  lemma NamesDiffer(local: seq<Pkg>, p: Pkg, q: Pkg)
    requires UniquelyNamed(local) && p in local && q in local && p != q
    ensures p.name != q.name
  {
    var i :| 0 <= i < |local| && local[i] == p;
    var j :| 0 <= j < |local| && local[j] == q;
    assert i < j || j < i;
  }

  /** An installed package outside rem and the orphans keeps its name to itself. */
  lemma StaysNamed(s: System, rem: seq<Pkg>, r: seq<Pkg>, q: Pkg, all: bool)
    requires UniquelyNamed(s.local) && rem <= r && q in s.local && !Named(rem, q.name)
    requires Removable(s.local, rem, all, Elements(r[|rem|..])) && q !in Elements(r[|rem|..])
    ensures !Named(r, q.name)
  {
    forall k | 0 <= k < |r| ensures r[k].name != q.name {
      if k < |rem| {
        assert rem[k] == r[k];
      } else {
        assert r[|rem|..][k - |rem|] == r[k];
        ReachableOthers(s.local, rem, all, r[k]);
        NamesDiffer(s.local, r[k], q);
      }
    }
  }

  ghost predicate Within(s: seq<Pkg>, t: seq<Pkg>) {
    forall p :: p in s ==> p in t
  }

  lemma AddedWithin(local: seq<Pkg>, rem: seq<Pkg>, r: seq<Pkg>)
    requires rem <= r && multiset(r[|rem|..]) <= multiset(local)
    ensures Within(rem, local) ==> Within(r, local)
  {
    forall p | p in r && p !in rem ensures p in local {
      assert r == rem + r[|rem|..];
      assert p in multiset(r[|rem|..]);
    }
  }

  lemma SubWithin(s: seq<Pkg>, t: seq<Pkg>)
    requires multiset(s) <= multiset(t)
    ensures Within(s, t)
  {
    forall p | p in s ensures p in t { assert p in multiset(s); }
  }

  /** The orphans are distinct from one another and from the targets. */
  lemma AddedUnique(local: seq<Pkg>, rem: seq<Pkg>, all: bool, r: seq<Pkg>)
    requires UniquelyNamed(local) && UniquelyNamed(rem) && rem <= r
    requires Removable(local, rem, all, Elements(r[|rem|..])) && multiset(r[|rem|..]) <= multiset(local)
    ensures UniquelyNamed(r)
  {
    var n, R := |rem|, r[|rem|..];
    forall k | 0 <= k < |R| ensures Others(local, rem, R[k]) {
      assert R[k] in Elements(R);
      ReachableOthers(local, rem, all, R[k]);
    }
    RestUnique(local, R);
    assert forall k :: 0 <= k < n ==> r[k] == rem[k];
    assert forall k :: n <= k < |r| ==> r[k] == R[k - n];
  }

  lemma RestUnique(local: seq<Pkg>, R: seq<Pkg>)
    requires UniquelyNamed(local) && multiset(R) <= multiset(local) && forall k :: 0 <= k < |R| ==> R[k] in local
    ensures UniquelyNamed(R)
  {
    forall i, j | 0 <= i < j < |R| ensures R[i].name != R[j].name {
      if R[i] == R[j] {
        TwiceCounted(R, i, j);
        OnceInstalled(local, R[i]);
      } else {
        NamesDiffer(local, R[i], R[j]);
      }
    }
  }

  lemma TwiceCounted(s: seq<Pkg>, i: nat, j: nat)
    requires i < j < |s| && s[i] == s[j]
    ensures multiset(s)[s[i]] >= 2
  {
    assert s == s[..j] + s[j..] && s[..j][i] == s[i] && s[j..][0] == s[i];
    assert multiset(s) == multiset(s[..j]) + multiset(s[j..]);
    assert s[i] in multiset(s[..j]) && s[i] in multiset(s[j..]);
  }

  ghost predicate SameMembers(s: seq<Pkg>, t: seq<Pkg>) {
    forall p :: p in s <==> p in t
  }

  ghost predicate Joins(r: seq<Pkg>, rem: seq<Pkg>, R: set<Pkg>) {
    forall p :: p in r <==> p in rem || p in R
  }

  /** r is rem and the largest set of orphans that can go with it. */
  ghost predicate WithOrphans(local: seq<Pkg>, rem: seq<Pkg>, all: bool, r: seq<Pkg>) {
    exists R :: LargestRemovable(local, rem, all, R) && Joins(r, rem, R)
  }

  /** r is the least safe removal that covers rem. */
  ghost predicate LeastSafe(s: System, rem: seq<Pkg>, r: seq<Pkg>) {
    && Safe(s, r) && Within(rem, r) && (forall p :: p in r && p !in rem ==> p in s.local)
    && forall big :: Covers(big, rem) && Safe(s, big) ==> Covers(big, r)
  }

  /** r is a safe part of rem, and the rest is needed by what stays. */
  ghost predicate SafePart(s: System, rem: seq<Pkg>, r: seq<Pkg>) {
    && Safe(s, r) && Within(r, rem) && (Safe(s, rem) ==> SameMembers(r, rem))
    && forall p :: p in rem && p !in r ==> NeededName(s, r, p.name)
  }

  /** What is asked for: the targets, with their orphans if these are to go too and nothing cascades. */
  ghost predicate Asked(local: seq<Pkg>, rem0: seq<Pkg>, f: Flags, rem: seq<Pkg>) {
    if f.recurse && !f.cascade then WithOrphans(local, rem0, f.recurseall, rem) else SameMembers(rem, rem0)
  }

  /** What each step leaves of the removal, for every set of flags: orphans of the targets, the check with its
      remedies, orphans of what a cascade adds up to. */
  ghost predicate Planned(s: System, rem0: seq<Pkg>, f: Flags, rem1: seq<Pkg>, rem2: seq<Pkg>, rem: seq<Pkg>) {
    && Asked(s.local, rem0, f, rem1)
    && (if f.nodeps then SameMembers(rem2, rem1)
        else if f.cascade then LeastSafe(s, rem1, rem2)
        else if f.unneeded then SafePart(s, rem1, rem2)
        else SameMembers(rem2, rem1) && Safe(s, rem2))
    && (if f.cascade && f.recurse then WithOrphans(s.local, rem2, f.recurseall, rem) else SameMembers(rem, rem2))
  }

  lemma PlannedReordered(s: System, rem0: seq<Pkg>, f: Flags, rem1: seq<Pkg>, rem2: seq<Pkg>, r: seq<Pkg>, r': seq<Pkg>)
    requires Planned(s, rem0, f, rem1, rem2, r) && SameMembers(r', r)
    ensures Planned(s, rem0, f, rem1, rem2, r')
  {
    if f.cascade && f.recurse {
      var R :| LargestRemovable(s.local, rem2, f.recurseall, R) && Joins(r, rem2, R);
      assert Joins(r', rem2, R);
    }
  }

  lemma OrphansAdded(local: seq<Pkg>, rem: seq<Pkg>, all: bool, r: seq<Pkg>)
    requires rem <= r && LargestRemovable(local, rem, all, Elements(r[|rem|..]))
    ensures WithOrphans(local, rem, all, r)
  {
    assert r == rem + r[|rem|..];
    assert Joins(r, rem, Elements(r[|rem|..]));
  }

  /** Step two: the dependency check of the removal, and what is done about complaints. */
  method CheckRemoval(s: System, rem1: seq<Pkg>, f: Flags) returns (ok: bool, rem: seq<Pkg>, data: seq<Missing>)
    requires UniquelyNamed(s.local) && UniquelyNamed(rem1) && !f.nodeps
    ensures UniquelyNamed(rem) && (Within(rem1, s.local) ==> Within(rem, s.local))
    ensures !ok ==> data != [] && data == BadDeps(Removal(s, rem), true) && rem == rem1 && !f.cascade && !f.unneeded
    ensures ok ==>
      Safe(s, rem) && (f.cascade ==> LeastSafe(s, rem1, rem)) && (!f.cascade && f.unneeded ==> SafePart(s, rem1, rem))
    ensures !f.cascade && !f.unneeded ==> rem == rem1
    ensures if f.cascade then rem1 <= rem else multiset(rem) <= multiset(rem1)
  {
    rem, data, ok := rem1, [], true;
    var lp := CheckDeps(Removal(s, rem), true);
    CheckDepsExact(Removal(s, rem));
    if lp == [] {
      return;
    }
    if f.cascade {
      rem := Cascade(s, rem, lp);
    } else if f.unneeded {
      rem := KeepNeededOnes(s, rem, lp);
      SubWithin(rem, rem1);
    } else {
      ok, data := false, lp;
    }
  }

  /** _alpm_remove_prepare: a removal that is let through breaks nothing, unless orphans are added after
      a cascade that ignored versions; rem1 and rem2 are what the first two steps leave. */
  method Prepare(s: System, rem0: seq<Pkg>, f: Flags)
    returns (ok: bool, rem: seq<Pkg>, data: seq<Missing>, ghost rem1: seq<Pkg>, ghost rem2: seq<Pkg>)
    requires UniquelyNamed(s.local) && UniquelyNamed(rem0)
    ensures ok ==> Planned(s, rem0, f, rem1, rem2, rem) && rem2 <= rem
    ensures ok && !f.nodeps ==> (Safe(s, rem) <==> MetElsewhere(s, rem2, rem))
    ensures ok && !f.nodeps && !(f.cascade && f.recurse && s.nodepversion) ==> Safe(s, rem)
    ensures !ok ==> !f.nodeps && !f.cascade && !f.unneeded && data != [] && data == BadDeps(Removal(s, rem), true)
    ensures !ok ==> Asked(s.local, rem0, f, rem)
    ensures ok && (f.cascade || f.nodeps || !f.unneeded) ==> rem0 <= rem
    ensures ok && !f.cascade && !f.recurse && (f.nodeps || !f.unneeded) ==> rem == rem0
    ensures UniquelyNamed(rem) && (Within(rem0, s.local) ==> Within(rem, s.local))
  {
    rem, data, ok := rem0, [], true;
    if f.recurse && !f.cascade {
      rem := AddOrphans(s.local, rem, f.recurseall);
      AddedUnique(s.local, rem0, f.recurseall, rem);
      AddedWithin(s.local, rem0, rem);
      OrphansAdded(s.local, rem0, f.recurseall, rem);
    }
    rem1 := rem;
    if !f.nodeps {
      ok, rem, data := CheckRemoval(s, rem, f);
    }
    rem2 := rem;
    if ok && f.cascade && f.recurse {
      rem := AddOrphans(s.local, rem, f.recurseall);
      AddedUnique(s.local, rem2, f.recurseall, rem);
      AddedWithin(s.local, rem2, rem);
      OrphansAdded(s.local, rem2, f.recurseall, rem);
      if !f.nodeps {
        OrphansSafeExactly(s, rem2, f.recurseall, rem);
        if !s.nodepversion { OrphansSafe(s, rem2, f.recurseall, rem); }
      }
    }
  }

  // ---------- orphans that are relied on ----------

  const LIB := Pkg("l", "1", "l", AsDependency, [], [], [])
  const TOOL := Pkg("t", "1", "t", Explicit, [Depend("l", None, None, ANY)], [], [])
  const APP := Pkg("a", "1", "a", Explicit, [Depend("l", Some("2"), None, GE)], [], [])

  ghost predicate OrphansAlwaysSafe(nodepversion: bool) {
    forall s: System, rem: seq<Pkg>, all: bool, r: seq<Pkg> ::
      (s.nodepversion == nodepversion && UniquelyNamed(s.local) && Safe(s, rem) && rem <= r
       && LargestRemovable(s.local, rem, all, Elements(r[|rem|..])))
      ==> Safe(s, r)
  }

  /** Every removal may be followed by one of orphans exactly when the check looked at versions. */
  lemma AlwaysSafeExactly(nodepversion: bool)
    ensures OrphansAlwaysSafe(nodepversion) <==> !nodepversion
  {
    if nodepversion {
      OrphanCounterexample();
    } else {
      forall s: System, rem: seq<Pkg>, all: bool, r: seq<Pkg> |
        s.nodepversion == nodepversion && UniquelyNamed(s.local) && Safe(s, rem) && rem <= r
        && LargestRemovable(s.local, rem, all, Elements(r[|rem|..]))
        ensures Safe(s, r)
      {
        OrphansSafe(s, rem, all, r);
      }
    }
  }

  lemma OneIsBelowTwo()
    ensures Version.VerCmp(Some("1"), Some("2")) < 0
  {
    assert Version.ParseEvr("1") == Version.Evr("0", "1", None);
    assert Version.ParseEvr("2") == Version.Evr("0", "2", None);
    VersionOrder.DigitPair("2", "1");
    VersionOrder.VerCmpAntisymmetric("1", "2");
  }

  const ASKED := Depend("l", Some("2"), None, ANY)
  const EXAMPLE := System([LIB, TOOL, APP], [], true)

  lemma ToolIsSafe()
    ensures Safe(EXAMPLE, [TOOL])
  {
    var c := Removal(EXAMPLE, [TOOL]);
    assert c.rem[0] == TOOL && EXAMPLE.local[0] == LIB && Satisfies(LIB, ASKED);
    assert !Touched(c, LIB);
    SelectMembers(c, EXAMPLE.local, false, LIB);
  }

  lemma LibIsMissed()
    ensures !Safe(EXAMPLE, [TOOL, LIB])
  {
    var c := Removal(EXAMPLE, [TOOL, LIB]);
    assert Compared(c.nodepversion, APP.depends[0]) == ASKED && APP.depends[0] in APP.depends;
    assert EXAMPLE.local[0] == LIB && EXAMPLE.local[2] == APP && Satisfies(LIB, ASKED);
    assert SatisfiedBy(ASKED, EXAMPLE.local);
    assert c.rem[0] == TOOL && c.rem[1] == LIB && !Touched(c, APP);
    forall i | 0 <= i < |Kept(c)| ensures !Satisfies(Kept(c)[i], ASKED) {
      SelectMembers(c, EXAMPLE.local, false, Kept(c)[i]);
      assert Touched(c, LIB) && Touched(c, TOOL);
    }
    assert !SatisfiedAfter(c, ASKED);
  }

  /** An application asks for l>=2 while l-1 is installed for a tool: removing the tool takes l along. */
  lemma OrphanCounterexample()
    ensures var s := EXAMPLE;
      && UniquelyNamed(s.local) && Safe(s, [TOOL]) && !Safe(s, [TOOL, LIB])
      && LargestRemovable(s.local, [TOOL], false, Elements([TOOL, LIB][|[TOOL]|..]))
  {
    ToolIsSafe();
    LibIsMissed();
    assert [TOOL, LIB][1..] == [LIB];
    OrphanIsLargest(EXAMPLE.local);
  }

  lemma OrphanIsLargest(local: seq<Pkg>)
    requires local == [LIB, TOOL, APP]
    ensures LargestRemovable(local, [TOOL], false, Elements([LIB]))
  {
    OneIsBelowTwo();
    assert Satisfies(LIB, TOOL.depends[0]) && DependsOn(TOOL, LIB);
    assert !Satisfies(LIB, APP.depends[0]) && !DependsOn(APP, LIB) && !DependsOn(LIB, LIB);
    assert [TOOL][0] == TOOL && Others(local, [TOOL], LIB);
    ReachableStart(local, [TOOL], false, TOOL, LIB);
    forall S | Removable(local, [TOOL], false, S) ensures S <= Elements([LIB]) {
      forall p | p in S ensures p in [LIB] {
        var path :| ChainFrom(local, [TOOL], false, path) && path[|path| - 1] == p;
        assert Eligible(p, false) && p in local;
      }
    }
  }
}
