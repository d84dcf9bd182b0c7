/** Preparing an installation or upgrade (lib/libalpm/sync.c: _alpm_sync_prepare). */
module SyncPrepare {
  import opened Packages
  import opened Deps
  import opened PkgDiff
  import opened Conflicts
  import opened Resolve
  import opened DepString
  import opened RecurseDeps

  datatype Flags = Flags(nodeps: bool, noconflicts: bool)

  datatype Error = NoError | Unresolvable | DuplicateFile | TargetConflict | LocalConflict | MissingDeps | LoadFailed

  /** What the user answers and how I/O turns out: whether to go on without what cannot be resolved, which
      installed packages to give up for which new ones, and whether the sizes and old versions could be read. */
  datatype Replies = Replies(skip: bool, giveUp: (Pkg, Pkg) -> bool, loaded: bool)

  /** Which local packages each package to install replaces: the `removes` field of a package. */
  type Removes = map<Pkg, seq<Pkg>>

  function RemovesOf(removes: Removes, p: Pkg): (r: seq<Pkg>) {
    if p in removes then removes[p] else []
  }

  // ---------- what a successful preparation guarantees ----------

  function Outcome(cfg: Config, add: seq<Pkg>, rem: seq<Pkg>): (c: Change) {
    Change(cfg.local, rem, add, cfg.assumed, cfg.nodepversion)
  }

  /** The packages present afterwards: those installed, and the untouched local ones. */
  function After(c: Change): (r: seq<Pkg>) {
    c.upgrade + Kept(c)
  }

  ghost predicate NoConflicts(c: Change) {
    forall a, b :: a in c.upgrade && b in After(c) ==> !ConflictsWith(a, b) && !ConflictsWith(b, a)
  }

  ghost predicate NoInnerConflict(add: seq<Pkg>) {
    forall a, b :: a in add && b in add ==> !ConflictsWith(a, b)
  }

  // ---------- step 1: resolve the targets ----------

  /** What goes, outright or for a target. */
  function AllRemoves(add: seq<Pkg>, removes: Removes, rem: seq<Pkg>): (r: seq<Pkg>) {
    if add == [] then rem
    else var n := |add| - 1; AllRemoves(add[..n], removes, rem) + RemovesOf(removes, add[n])
  }

  lemma {:induction false} AllRemovesAre(add: seq<Pkg>, removes: Removes, rem: seq<Pkg>, p: Pkg)
    ensures p in AllRemoves(add, removes, rem) <==> p in rem || exists a :: a in add && p in RemovesOf(removes, a)
  {
    if add != [] {
      var n := |add| - 1;
      AllRemovesAre(add[..n], removes, rem, p);
      assert add == add[..n] + [add[n]];
    }
  }

  method CollectRemoves(add: seq<Pkg>, removes: Removes, rem: seq<Pkg>) returns (remove: seq<Pkg>)
    ensures remove == AllRemoves(add, removes, rem)
  {
    remove := rem;
    for i := 0 to |add|
      invariant remove == AllRemoves(add[..i], removes, rem)
    {
      assert add[..i + 1][..i] == add[..i];
      remove := remove + RemovesOf(removes, add[i]);
    }
    assert add[..|add|] == add;
  }

  /** The installed packages that no target replaces. */
  ghost predicate IsRest(cfg: Config, add: seq<Pkg>, localpkgs: seq<Pkg>) {
    forall p :: p in localpkgs <==> p in cfg.local && !Named(add, p.name)
  }

  /** Something that the target misses is neither satisfied by itself nor by an installed package of that name
      and, with one package a name, it belongs to no set of packages whose dependencies are certain. */
  ghost predicate IsStuck(cfg: Config, localpkgs: seq<Pkg>, add: seq<Pkg>, remove: seq<Pkg>, p: Pkg) {
    && (exists m :: m in BadDeps(Trial(cfg, localpkgs, remove, p), false) && !Solvable(cfg, remove, [p], m.depend))
    && (OnePerName(cfg, add) ==> !Resolvable(cfg, localpkgs, add, remove, p))
  }

  ghost predicate Stuck(cfg: Config, add: seq<Pkg>, removes: Removes, rem: seq<Pkg>, p: Pkg) {
    exists localpkgs :: IsRest(cfg, add, localpkgs) && IsStuck(cfg, localpkgs, add, AllRemoves(add, removes, rem), p)
  }

  lemma NotResolved(cfg: Config, localpkgs: seq<Pkg>, add: seq<Pkg>, resolved: seq<Pkg>, remove: seq<Pkg>, p: Pkg)
    requires !(forall m :: m in BadDeps(Trial(cfg, localpkgs, remove, p), false) ==>
      Solvable(cfg, remove, resolved + [p], m.depend))
    requires OnePerName(cfg, add) ==> !Resolvable(cfg, localpkgs, add, remove, p)
    ensures IsStuck(cfg, localpkgs, add, remove, p)
  {
    var m :| m in BadDeps(Trial(cfg, localpkgs, remove, p), false) && !Solvable(cfg, remove, resolved + [p], m.depend);
    if Solvable(cfg, remove, [p], m.depend) {
      SolvableMonotone(cfg, remove, [p], resolved + [p], m.depend);
    }
  }

  /** The target is among the resolved packages, itself if there is one package a name. */
  ghost predicate IsResolved(cfg: Config, add: seq<Pkg>, resolved: seq<Pkg>, p: Pkg) {
    Named(resolved, p.name) && (OnePerName(cfg, add) ==> p in resolved)
  }

  /** Resolves the targets one by one; those that are stuck are set aside. */
  method ResolveTargets(cfg: Config, add: seq<Pkg>, removes: Removes, rem: seq<Pkg>)
    returns (resolved: seq<Pkg>, unresolvable: seq<Pkg>)
    requires DbsUnique(cfg.sync) && UniquelyNamed(cfg.local)
    ensures UniquelyNamed(resolved) && forall k :: 0 <= k < |resolved| ==> Known(cfg, add, resolved[k])
    ensures forall k :: 0 <= k < |unresolvable| ==>
      unresolvable[k] in add && Stuck(cfg, add, removes, rem, unresolvable[k])
    ensures forall p :: p in add && p !in unresolvable ==> IsResolved(cfg, add, resolved, p)
    ensures AllDue(cfg, add, resolved)
  {
    var remove := CollectRemoves(add, removes, rem);
    var localpkgs := DropNamed(cfg.local, add);
    assert IsRest(cfg, add, localpkgs);
    resolved, unresolvable := [], [];
    for i := 0 to |add|
      invariant Inputs(cfg, localpkgs, add, resolved)
      invariant AllStuck(cfg, localpkgs, add, remove, unresolvable)
      invariant AllResolved(cfg, add, add[..i], resolved, unresolvable)
      invariant AllDue(cfg, add, resolved)
    {
      ghost var before, aside := resolved, unresolvable;
      var ok;
      ok, resolved := ResolveDeps(cfg, localpkgs, add[i], add, resolved, remove);
      if !ok {
        NotResolved(cfg, localpkgs, add, before, remove, add[i]);
        unresolvable := unresolvable + [add[i]];
      }
      assert add[..i + 1] == add[..i] + [add[i]];
      OneMoreResolved(cfg, add, add[..i], add[i], before, resolved, aside, unresolvable);
      MoreDue(cfg, add, before, add[i], resolved);
    }
    assert add[..|add|] == add;
  }

  /** Each of the packages is requested, or satisfies a dependency of one before it. */
  ghost predicate AllDue(cfg: Config, add: seq<Pkg>, pkgs: seq<Pkg>) {
    forall k :: 0 <= k < |pkgs| ==> pkgs[k] in add || IsWanted(cfg, pkgs, 0, k)
  }

  lemma MoreDue(cfg: Config, add: seq<Pkg>, before: seq<Pkg>, p: Pkg, after: seq<Pkg>)
    requires AllDue(cfg, add, before) && p in add
    requires after == before || (before + [p] <= after && AllWanted(cfg, after, |before|))
    ensures AllDue(cfg, add, after)
  {
    var n := |before|;
    forall k | 0 <= k < |after| ensures after[k] in add || IsWanted(cfg, after, 0, k) {
      if k < n {
        assert after[..n] == before && forall j :: 0 <= j < n ==> after[j] == before[j];
        if before[k] !in add {
          var j :| 0 <= j < k && NeedsIt(cfg, before[j], before[k]);
          assert NeedsIt(cfg, after[j], after[k]);
        }
      } else if k == n {
        assert after[n] == (before + [p])[n];
      } else {
        assert IsWanted(cfg, after, n, k);
      }
    }
  }

  ghost predicate AllStuck(cfg: Config, localpkgs: seq<Pkg>, add: seq<Pkg>, remove: seq<Pkg>, aside: seq<Pkg>) {
    forall k :: 0 <= k < |aside| ==> aside[k] in add && IsStuck(cfg, localpkgs, add, remove, aside[k])
  }

  ghost predicate AllResolved(cfg: Config, add: seq<Pkg>, some: seq<Pkg>, resolved: seq<Pkg>, aside: seq<Pkg>) {
    forall p :: p in some && p !in aside ==> IsResolved(cfg, add, resolved, p)
  }

  lemma OneMoreResolved(cfg: Config, add: seq<Pkg>, some: seq<Pkg>, p: Pkg, before: seq<Pkg>, after: seq<Pkg>,
                        aside: seq<Pkg>, aside': seq<Pkg>)
    requires AllResolved(cfg, add, some, before, aside) && before <= after && aside <= aside'
    requires p !in aside' ==> IsResolved(cfg, add, after, p)
    ensures AllResolved(cfg, add, some + [p], after, aside')
  {
    forall q | q in some && q !in aside' ensures IsResolved(cfg, add, after, q) {
      assert q !in aside;
      NamedLonger(before, after, q.name);
    }
  }

  /** A package that was pulled in is recorded as a dependency. */
  function Marked(add: seq<Pkg>, p: Pkg): (r: Pkg) {
    if Named(add, p.name) then p else p.(reason := AsDependency)
  }

  method MarkPulled(add: seq<Pkg>, resolved: seq<Pkg>) returns (r: seq<Pkg>)
    ensures |r| == |resolved| && forall k :: 0 <= k < |r| ==> r[k] == Marked(add, resolved[k])
    ensures forall k :: 0 <= k < |r| && Named(add, resolved[k].name) ==> r[k] == resolved[k]
    ensures forall k :: 0 <= k < |r| && !Named(add, resolved[k].name) ==>
      r[k].reason == AsDependency && r[k] == resolved[k].(reason := r[k].reason)
  {
    r := [];
    for i := 0 to |resolved|
      invariant |r| == i && forall k :: 0 <= k < i ==> r[k] == Marked(add, resolved[k])
    {
      r := r + [Marked(add, resolved[i])];
    }
  }

  method DuplicateFilename(pkgs: seq<Pkg>) returns (dup: bool)
    ensures dup <==> exists i, j :: 0 <= i < j < |pkgs| && pkgs[i].filename == pkgs[j].filename
  {
    dup := false;
    for i := 0 to |pkgs|
      invariant dup <==> exists k, j :: 0 <= k < i && k < j < |pkgs| && pkgs[k].filename == pkgs[j].filename
    {
      for j := i + 1 to |pkgs|
        invariant dup <==>
          || (exists k, l :: 0 <= k < i && k < l < |pkgs| && pkgs[k].filename == pkgs[l].filename)
          || (exists l :: i < l < j && pkgs[i].filename == pkgs[l].filename)
      {
        if pkgs[i].filename == pkgs[j].filename {
          dup := true;
        }
      }
    }
  }

  // ---------- step 2: conflicts ----------

  /** Two targets that conflict and of which neither provides the other. */
  ghost predicate IrreconcilableIn(add: seq<Pkg>, a: Pkg, b: Pkg) {
    a in add && b in add && ConflictsWith(a, b) && !Satisfies(a, ParseDep(b.name)) && !Satisfies(b, ParseDep(a.name))
  }

  /** Another target conflicts with p and provides it. */
  ghost predicate GivesWay(targets: seq<Pkg>, p: Pkg) {
    exists q :: q in targets && (ConflictsWith(p, q) || ConflictsWith(q, p)) && Satisfies(q, ParseDep(p.name))
  }

  lemma GenuineConflicts(c: Conflict, list1: seq<Pkg>, list2: seq<Pkg>)
    requires Genuine(c, list1, list2, false)
    ensures c.package1 in list1 && c.package2 in list2 && ConflictsWith(c.package1, c.package2)
  {}

  /** What is left of the targets while their conflicts are settled: what is gone gave way. */
  ghost predicate Settling(add0: seq<Pkg>, add: seq<Pkg>) {
    && UniquelyNamed(add0) && UniquelyNamed(add) && multiset(add) <= multiset(add0)
    && (forall p :: p in add ==> p in add0)
    && (forall p :: p in add0 && p !in add ==> GivesWay(add0, p))
  }

  /** One conflict among the targets: if both are still there, one gives way to the other, which provides it. */
  method SettleOne(add0: seq<Pkg>, add: seq<Pkg>, c: Conflict) returns (ok: bool, r: seq<Pkg>)
    requires Settling(add0, add) && Genuine(c, add0, add0, false)
    ensures Settling(add0, r) && (forall name :: Named(r, name) ==> Named(add, name))
    ensures ok ==> !Named(r, c.package1.name) || !Named(r, c.package2.name)
    ensures !ok ==> r == add && IrreconcilableIn(add, c.package1, c.package2)
    ensures !Named(add, c.package1.name) || !Named(add, c.package2.name) ==> r == add
    ensures ok && Named(add, c.package1.name) && Named(add, c.package2.name) ==>
      var gone := if Satisfies(c.package1, ParseDep(c.package2.name)) then c.package2 else c.package1;
      forall p :: p in r <==> p in add && p != gone
  {
    ok, r := true, add;
    var name1, name2 := c.package1.name, c.package2.name;
    var sync1 := FindPkg(add, name1);
    var sync2 := FindPkg(add, name2);
    if sync1 == None || sync2 == None {
      return;
    }
    GenuineConflicts(c, add0, add0);
    SameName(add0, sync1.value, c.package1);
    SameName(add0, sync2.value, c.package2);
    if Satisfies(sync1.value, ParseDep(name2)) {
      r := Drop(add0, add, sync2.value);
    } else if Satisfies(sync2.value, ParseDep(name1)) {
      r := Drop(add0, add, sync1.value);
    } else {
      ok := false;
    }
  }

  /** Takes a target that gives way out of the list. */
  method Drop(add0: seq<Pkg>, add: seq<Pkg>, rsync: Pkg) returns (r: seq<Pkg>)
    requires Settling(add0, add) && rsync in add && GivesWay(add0, rsync)
    ensures Settling(add0, r) && forall name :: Named(r, name) ==> Named(add, name) && name != rsync.name
    ensures forall p :: p in r <==> p in add && p != rsync
  {
    r := DropName(add, rsync.name);
    forall p | p in add && p !in r ensures p == rsync { SameName(add0, p, rsync); }
    forall name ensures Named(r, name) ==> Named(add, name) && name != rsync.name { NamedMember(r, add, name); }
  }

  /** Conflicts among the targets: one of each pair gives way to a package that provides it. */
  method SettleInner(add0: seq<Pkg>) returns (ok: bool, add: seq<Pkg>)
    requires UniquelyNamed(add0)
    ensures Settling(add0, add)
    ensures ok ==> NoInnerConflict(add)
    ensures !ok ==> exists a, b :: IrreconcilableIn(add, a, b)
  {
    add, ok := add0, true;
    var deps := InnerConflicts(add);
    for i := 0 to |deps|
      invariant Settling(add0, add)
      invariant AllSettled(add, deps, i)
    {
      ghost var before := add;
      ok, add := SettleOne(add0, add, deps[i]);
      if !ok {
        return;
      }
      OneMoreSettled(before, add, deps, i);
    }
    NoneLeft(add0, add, deps);
  }

  /** Of each of the first n conflicts one side is gone. */
  ghost predicate AllSettled(add: seq<Pkg>, deps: seq<Conflict>, n: nat) {
    n <= |deps| && forall k :: 0 <= k < n ==> !Named(add, deps[k].package1.name) || !Named(add, deps[k].package2.name)
  }

  lemma OneMoreSettled(before: seq<Pkg>, add: seq<Pkg>, deps: seq<Conflict>, n: nat)
    requires n < |deps| && AllSettled(before, deps, n) && (forall name :: Named(add, name) ==> Named(before, name))
    requires !Named(add, deps[n].package1.name) || !Named(add, deps[n].package2.name)
    ensures AllSettled(add, deps, n + 1)
  {
    forall k | 0 <= k < n + 1 ensures !Named(add, deps[k].package1.name) || !Named(add, deps[k].package2.name) {
      if k < n { assert !Named(before, deps[k].package1.name) || !Named(before, deps[k].package2.name); }
    }
  }

  lemma NoneLeft(add0: seq<Pkg>, add: seq<Pkg>, deps: seq<Conflict>)
    requires forall p :: p in add ==> p in add0
    requires forall a, b :: a in add0 && b in add0 && ConflictsWith(a, b) ==> IsIn(a.name, b.name, deps)
    requires AllSettled(add, deps, |deps|)
    ensures NoInnerConflict(add)
  {
    forall a, b | a in add && b in add ensures !ConflictsWith(a, b) {
      assert Named(add, a.name) && Named(add, b.name);
      assert ConflictsWith(a, b) ==> IsIn(a.name, b.name, deps);
    }
  }

  lemma NamedMember(small: seq<Pkg>, big: seq<Pkg>, name: string)
    requires forall p :: p in small ==> p in big
    ensures Named(small, name) ==> Named(big, name)
    ensures Named(small, name) ==> exists p :: p in small && p.name == name
  {
    if Named(small, name) {
      var k :| 0 <= k < |small| && small[k].name == name;
      assert small[k] in big;
    }
  }

  /** The local package of that name is to be removed, outright or for a package to install. */
  predicate Elected(add: seq<Pkg>, rem: seq<Pkg>, removes: Removes, name: string) {
    Named(rem, name) || exists i :: 0 <= i < |add| && Named(RemovesOf(removes, add[i]), name)
  }

  lemma StillElected(add: seq<Pkg>, rem: seq<Pkg>, removes: Removes, p: Pkg, q: Pkg, name: string)
    requires p in add
    ensures var removes' := removes[p := RemovesOf(removes, p) + [q]];
      (Elected(add, rem, removes, name) ==> Elected(add, rem, removes', name)) && Elected(add, rem, removes', q.name)
  {
    var rs := RemovesOf(removes, p) + [q];
    var removes' := removes[p := rs];
    var k :| 0 <= k < |add| && add[k] == p;
    assert RemovesOf(removes', add[k]) == rs && rs[|rs| - 1] == q;
    if Elected(add, rem, removes, name) && !Named(rem, name) {
      var i :| 0 <= i < |add| && Named(RemovesOf(removes, add[i]), name);
      if add[i] == p { NamedLonger(RemovesOf(removes, p), rs, name); }
      assert Named(RemovesOf(removes', add[i]), name);
    }
  }

  /** Conflicts with installed packages: the user gives up the installed one, or the whole transaction. */
  method SettleOuter(local: seq<Pkg>, add: seq<Pkg>, rem: seq<Pkg>, removes0: Removes, giveUp: (Pkg, Pkg) -> bool)
    returns (ok: bool, removes: Removes)
    requires UniquelyNamed(local) && UniquelyNamed(add)
    ensures ok ==> forall a, b :: Between(a, b, local, add) ==> Elected(add, rem, removes, b.name)
    ensures !ok ==> exists a, b :: Between(a, b, local, add) && !Elected(add, rem, removes, b.name) && !giveUp(a, b)
    ensures Justified(local, add, removes0, giveUp, removes) && Extended(removes0, removes)
  {
    removes, ok := removes0, true;
    var deps := OuterConflicts(local, add);
    for i := 0 to |deps|
      invariant Justified(local, add, removes0, giveUp, removes) && Extended(removes0, removes)
      invariant forall k :: 0 <= k < i ==> Elected(add, rem, removes, deps[k].package2.name)
    {
      var name1, name2 := deps[i].package1.name, deps[i].package2.name;
      if Elected(add, rem, removes, name2) {
        continue;
      }
      assert Between(deps[i].package1, deps[i].package2, local, add);
      if !giveUp(deps[i].package1, deps[i].package2) {
        return false, removes;
      }
      removes := Elect(local, add, rem, removes, deps[i]);
    }
  }

  /** What a package replaces stays on its list. */
  ghost predicate Extended(removes0: Removes, removes: Removes) {
    forall a, q :: q in RemovesOf(removes0, a) ==> q in RemovesOf(removes, a)
  }

  /** Nothing is given up but what the package to install replaces, or what it conflicts with and the user gives up. */
  ghost predicate Justified(local: seq<Pkg>, add: seq<Pkg>, removes0: Removes, giveUp: (Pkg, Pkg) -> bool,
                            removes: Removes) {
    forall a, q :: q in RemovesOf(removes, a) ==>
      q in RemovesOf(removes0, a) || (Between(a, q, local, add) && giveUp(a, q))
  }

  /** Puts the installed package on the list of what the package to install replaces. */
  method Elect(local: seq<Pkg>, add: seq<Pkg>, rem: seq<Pkg>, removes: Removes, c: Conflict) returns (r: Removes)
    requires c.package1 in add && c.package2 in local && UniquelyNamed(add) && UniquelyNamed(local)
    ensures forall name :: Elected(add, rem, removes, name) ==> Elected(add, rem, r, name)
    ensures Elected(add, rem, r, c.package2.name) && Extended(removes, r)
    ensures forall a, q :: q in RemovesOf(r, a) ==> q in RemovesOf(removes, a) || (a == c.package1 && q == c.package2)
  {
    var sync := FindPkg(add, c.package1.name);
    var gone := FindPkg(local, c.package2.name);
    SameName(add, sync.value, c.package1);
    SameName(local, gone.value, c.package2);
    r := removes[sync.value := RemovesOf(removes, sync.value) + [gone.value]];
    forall name
      ensures (Elected(add, rem, removes, name) ==> Elected(add, rem, r, name)) && Elected(add, rem, r, gone.value.name)
    {
      StillElected(add, rem, removes, sync.value, gone.value, name);
    }
  }

  // ---------- step 3: the list of packages to remove ----------

  method AddRemoved(rem0: seq<Pkg>, rs: seq<Pkg>) returns (rem: seq<Pkg>)
    ensures rem0 <= rem && forall k :: 0 <= k < |rs| ==> Named(rem, rs[k].name)
    ensures UniquelyNamed(rem0) ==> UniquelyNamed(rem)
    ensures forall p :: p in rem ==> p in rem0 || p in rs
  {
    rem := rem0;
    for j := 0 to |rs|
      invariant forall p :: p in rem ==> p in rem0 || p in rs
      invariant UniquelyNamed(rem0) ==> UniquelyNamed(rem)
      invariant rem0 <= rem && forall k :: 0 <= k < j ==> Named(rem, rs[k].name)
    {
      if !Named(rem, rs[j].name) {
        ghost var before := rem;
        rem := rem + [rs[j]];
        assert rem[|before|] == rs[j];
        forall k | 0 <= k < j ensures Named(rem, rs[k].name) { NamedLonger(before, rem, rs[k].name); }
      }
    }
  }

  ghost predicate Replaced(add: seq<Pkg>, removes: Removes, p: Pkg) {
    exists a :: a in add && p in RemovesOf(removes, a)
  }

  method BuildRemove(add: seq<Pkg>, removes: Removes, rem0: seq<Pkg>) returns (rem: seq<Pkg>)
    ensures rem0 <= rem && forall name :: Elected(add, rem0, removes, name) ==> Named(rem, name)
    ensures UniquelyNamed(rem0) ==> UniquelyNamed(rem)
    ensures forall p :: p in rem ==> p in rem0 || Replaced(add, removes, p)
  {
    rem := rem0;
    for i := 0 to |add|
      invariant forall p :: p in rem ==> p in rem0 || Replaced(add, removes, p)
      invariant rem0 <= rem && (UniquelyNamed(rem0) ==> UniquelyNamed(rem))
      invariant forall k, name :: 0 <= k < i && Named(RemovesOf(removes, add[k]), name) ==> Named(rem, name)
    {
      ghost var before := rem;
      rem := AddRemoved(rem, RemovesOf(removes, add[i]));
      assert add[i] in add;
      forall name | Named(before, name) ensures Named(rem, name) { NamedLonger(before, rem, name); }
    }
    forall name | Named(rem0, name) ensures Named(rem, name) { NamedLonger(rem0, rem, name); }
  }

  // ---------- the whole preparation ----------

  lemma {:induction false} KeptUnique(c: Change, pkgs: seq<Pkg>)
    requires UniquelyNamed(pkgs)
    ensures UniquelyNamed(Select(c, pkgs, false))
  {
    if pkgs != [] {
      var n := |pkgs| - 1;
      KeptUnique(c, pkgs[..n]);
      var s := Select(c, pkgs[..n], false);
      forall k | 0 <= k < |s| ensures s[k].name != pkgs[n].name {
        SelectMembers(c, pkgs[..n], false, s[k]);
        var j :| 0 <= j < n && pkgs[..n][j] == s[k];
        assert pkgs[j] == s[k];
      }
    }
  }

  lemma AfterUnique(c: Change)
    requires UniquelyNamed(c.local) && UniquelyNamed(c.upgrade)
    ensures UniquelyNamed(After(c))
  {
    KeptUnique(c, c.local);
    var k := Kept(c);
    forall i, j | 0 <= i < |c.upgrade| && 0 <= j < |k| ensures c.upgrade[i].name != k[j].name {
      SelectMembers(c, c.local, false, k[j]);
    }
  }

  lemma ConflictFree(c: Change)
    requires NoInnerConflict(c.upgrade)
    requires forall a, b :: Between(a, b, c.local, c.upgrade) ==> Named(c.rem, b.name)
    ensures NoConflicts(c)
  {
    forall a, b | a in c.upgrade && b in After(c) ensures !ConflictsWith(a, b) && !ConflictsWith(b, a) {
      if b !in c.upgrade {
        SelectMembers(c, c.local, false, b);
        assert !Named(c.rem, b.name) && !Named(c.upgrade, b.name);
        assert !Between(a, b, c.local, c.upgrade);
      }
    }
  }

  /** What becomes of the requested packages: targets are those to install with what they pull in, and aside those
      that are stuck. */
  ghost predicate Targeted(cfg: Config, add0: seq<Pkg>, rem0: seq<Pkg>, removes0: Removes, f: Flags,
                           targets: seq<Pkg>, aside: seq<Pkg>) {
    && (f.nodeps ==> targets == add0 && aside == [])
    && (forall p :: p in aside ==> p in add0 && Stuck(cfg, add0, removes0, rem0, p))
    && (forall p :: p in add0 && p !in aside ==> IsResolved(cfg, add0, targets, p))
    && (forall p :: p in targets ==> Comes(cfg, add0, p)) && AllDue(cfg, add0, targets)
  }

  /** How a plan answers a request. */
  ghost predicate Answered(cfg: Config, add0: seq<Pkg>, rem0: seq<Pkg>, removes0: Removes, f: Flags, ans: Replies,
                           targets: seq<Pkg>, aside: seq<Pkg>, add: seq<Pkg>, rem: seq<Pkg>) {
    && Targeted(cfg, add0, rem0, removes0, f, targets, aside) && (aside != [] ==> ans.skip) && ans.loaded
    && LeftOf(targets, f.noconflicts, add) && Justifies(cfg, rem0, removes0, f.noconflicts, ans.giveUp, add, rem)
    && AllReplaced(add, removes0, rem)
  }

  /** The package is requested or, recorded as a dependency if not, from a repository. */
  ghost predicate Comes(cfg: Config, add0: seq<Pkg>, p: Pkg) {
    exists q :: Known(cfg, add0, q) && p == q.(reason := p.reason)
      && if Named(add0, q.name) then p == q else p.reason == AsDependency
  }

  /** What resolution gives, once marked. */
  ghost predicate Resolution(cfg: Config, add0: seq<Pkg>, removes: Removes, rem: seq<Pkg>, targets: seq<Pkg>,
                             aside: seq<Pkg>) {
    && UniquelyNamed(targets)
    && (forall p :: p in aside ==> p in add0 && Stuck(cfg, add0, removes, rem, p))
    && (forall p :: p in add0 && p !in aside ==> IsResolved(cfg, add0, targets, p))
    && (forall p :: p in targets ==> Comes(cfg, add0, p)) && AllDue(cfg, add0, targets)
  }

  lemma MarkedResolution(cfg: Config, add0: seq<Pkg>, resolved: seq<Pkg>, targets: seq<Pkg>)
    requires UniquelyNamed(resolved) && forall k :: 0 <= k < |resolved| ==> Known(cfg, add0, resolved[k])
    requires |targets| == |resolved| && forall k :: 0 <= k < |targets| ==> targets[k] == Marked(add0, resolved[k])
    requires AllDue(cfg, add0, resolved)
    ensures UniquelyNamed(targets) && (forall p :: p in targets ==> Comes(cfg, add0, p)) && AllDue(cfg, add0, targets)
    ensures forall p :: p in add0 && IsResolved(cfg, add0, resolved, p) ==> IsResolved(cfg, add0, targets, p)
  {
    forall p | p in add0 && IsResolved(cfg, add0, resolved, p) ensures IsResolved(cfg, add0, targets, p) {
      var k :| 0 <= k < |resolved| && resolved[k].name == p.name;
      assert targets[k].name == p.name;
      if p in resolved {
        var j :| 0 <= j < |resolved| && resolved[j] == p;
        assert Named(add0, p.name) && targets[j] == p;
      }
    }
    forall p | p in targets ensures Comes(cfg, add0, p) {
      var k :| 0 <= k < |targets| && targets[k] == p;
      assert Known(cfg, add0, resolved[k]);
    }
    forall k | 0 <= k < |targets| ensures targets[k] in add0 || IsWanted(cfg, targets, 0, k) {
      MarkedDue(cfg, add0, resolved, targets, k);
    }
  }

  lemma MarkedDue(cfg: Config, add0: seq<Pkg>, resolved: seq<Pkg>, targets: seq<Pkg>, k: nat)
    requires |targets| == |resolved| && forall k :: 0 <= k < |targets| ==> targets[k] == Marked(add0, resolved[k])
    requires AllDue(cfg, add0, resolved) && k < |targets|
    ensures targets[k] in add0 || IsWanted(cfg, targets, 0, k)
  {
    if resolved[k] in add0 {
      assert Named(add0, resolved[k].name);
    } else {
      var j :| 0 <= j < k && NeedsIt(cfg, resolved[j], resolved[k]);
      var d :| d in resolved[j].depends && Satisfies(resolved[k], Compared(cfg.nodepversion, d));
      assert d in targets[j].depends && Satisfies(targets[k], Compared(cfg.nodepversion, d));
    }
  }

  /** The first step: resolves the targets; gives up if the user does, or if two files have one name. */
  method Resolved(cfg: Config, add0: seq<Pkg>, rem: seq<Pkg>, removes: Removes, skip: bool)
    returns (err: Error, targets: seq<Pkg>, aside: seq<Pkg>)
    requires DbsUnique(cfg.sync) && UniquelyNamed(cfg.local)
    ensures err in {NoError, Unresolvable, DuplicateFile} && Resolution(cfg, add0, removes, rem, targets, aside)
    ensures err == Unresolvable <==> aside != [] && !skip
    ensures err == DuplicateFile <==>
      err != Unresolvable && exists i, j :: 0 <= i < j < |targets| && targets[i].filename == targets[j].filename
  {
    var resolved;
    resolved, aside := ResolveTargets(cfg, add0, removes, rem);
    targets := MarkPulled(add0, resolved);
    MarkedResolution(cfg, add0, resolved, targets);
    if aside != [] && !skip {
      return Unresolvable, targets, aside;
    }
    var dup := DuplicateFilename(targets);
    err := if dup then DuplicateFile else NoError;
  }

  /** What is left of the targets: those that are gone gave way. */
  ghost predicate LeftOf(targets: seq<Pkg>, noconflicts: bool, add: seq<Pkg>) {
    && (forall p :: p in add ==> p in targets)
    && (forall p :: p in targets && p !in add ==> !noconflicts && GivesWay(targets, p))
  }

  /** What goes was to go, is replaced by a package to install, or is given up for one that it conflicts with. */
  ghost predicate Justifies(cfg: Config, rem0: seq<Pkg>, removes: Removes, noconflicts: bool,
                            giveUp: (Pkg, Pkg) -> bool, add: seq<Pkg>, rem: seq<Pkg>) {
    && (forall p :: p in rem0 ==> p in rem)
    && (forall p :: p in rem ==>
          || p in rem0 || Replaced(add, removes, p)
          || (!noconflicts && exists a :: Between(a, p, cfg.local, add) && giveUp(a, p)))
  }

  /** What a package to install replaces goes. */
  ghost predicate AllReplaced(add: seq<Pkg>, removes: Removes, rem: seq<Pkg>) {
    forall a, p :: a in add && p in RemovesOf(removes, a) ==> Named(rem, p.name)
  }

  lemma ReplacedIsElected(add: seq<Pkg>, rem: seq<Pkg>, removes: Removes, a: Pkg, p: Pkg)
    requires a in add && p in RemovesOf(removes, a)
    ensures Elected(add, rem, removes, p.name)
  {
    var i :| 0 <= i < |add| && add[i] == a;
    var k :| 0 <= k < |RemovesOf(removes, a)| && RemovesOf(removes, a)[k] == p;
    assert Named(RemovesOf(removes, add[i]), p.name);
  }

  /** The second step: settles the conflicts and lists what is to be removed. */
  method Settled(cfg: Config, targets: seq<Pkg>, rem0: seq<Pkg>, removes0: Removes, noconflicts: bool,
                 giveUp: (Pkg, Pkg) -> bool)
    returns (err: Error, add: seq<Pkg>, rem: seq<Pkg>)
    requires UniquelyNamed(cfg.local) && UniquelyNamed(targets)
    ensures err in {NoError, TargetConflict, LocalConflict} && (err != NoError ==> !noconflicts)
    ensures UniquelyNamed(add) && LeftOf(targets, noconflicts, add)
    ensures rem0 <= rem && (UniquelyNamed(rem0) ==> UniquelyNamed(rem))
    ensures Justifies(cfg, rem0, removes0, noconflicts, giveUp, add, rem)
    ensures err == NoError ==> AllReplaced(add, removes0, rem)
    ensures err == NoError && !noconflicts ==> NoConflicts(Outcome(cfg, add, rem))
    ensures err == TargetConflict ==> exists a, b :: IrreconcilableIn(add, a, b)
    ensures err == LocalConflict ==>
      exists a, b :: Between(a, b, cfg.local, add) && !Named(rem, b.name) && !giveUp(a, b)
  {
    add, rem, err := targets, rem0, NoError;
    var removes := removes0;
    if !noconflicts {
      var ok;
      ok, add := SettleInner(add);
      if !ok {
        return TargetConflict, add, rem;
      }
      ok, removes := SettleOuter(cfg.local, add, rem, removes, giveUp);
      if !ok {
        return LocalConflict, add, rem;
      }
    }
    rem := BuildRemove(add, removes, rem);
    forall a, p | a in add && p in RemovesOf(removes0, a) ensures Named(rem, p.name) {
      ReplacedIsElected(add, rem0, removes, a, p);
    }
    if !noconflicts { ConflictFree(Outcome(cfg, add, rem)); }
  }

  /** Why a request is refused: the user gives up targets that are stuck, two files have one name, two targets are
      irreconcilable, the user keeps an installed package that a target conflicts with, a dependency would be
      missing, or I/O fails. */
  ghost predicate Refused(cfg: Config, add0: seq<Pkg>, rem0: seq<Pkg>, removes0: Removes, f: Flags, ans: Replies,
                          err: Error, targets: seq<Pkg>, aside: seq<Pkg>, add: seq<Pkg>, rem: seq<Pkg>) {
    && Targeted(cfg, add0, rem0, removes0, f, targets, aside)
    && Justifies(cfg, rem0, removes0, f.noconflicts, ans.giveUp, add, rem)
    && (err !in {Unresolvable, DuplicateFile} ==> (aside != [] ==> ans.skip) && LeftOf(targets, f.noconflicts, add))
    && match err
       case NoError => false
       case Unresolvable => !f.nodeps && aside != [] && !ans.skip
       case DuplicateFile =>
         !f.nodeps && exists i, j :: 0 <= i < j < |targets| && targets[i].filename == targets[j].filename
       case TargetConflict => !f.noconflicts && exists a, b :: IrreconcilableIn(add, a, b)
       case LocalConflict =>
         !f.noconflicts && exists a, b :: Between(a, b, cfg.local, add) && !Named(rem, b.name) && !ans.giveUp(a, b)
       case MissingDeps => !f.nodeps && !KeepsDependencies(Outcome(cfg, add, rem))
       case LoadFailed => !ans.loaded
  }

  lemma OnlyRequested(cfg: Config, add0: seq<Pkg>)
    ensures AllDue(cfg, add0, add0)
    ensures forall p :: p in add0 ==> Comes(cfg, add0, p) && IsResolved(cfg, add0, add0, p)
  {
    forall p | p in add0 ensures Comes(cfg, add0, p) && IsResolved(cfg, add0, add0, p) {
      var k :| 0 <= k < |add0| && add0[k] == p;
      assert Known(cfg, add0, p) && p == p.(reason := p.reason) && Named(add0, p.name);
    }
  }

  /** _alpm_sync_prepare. Whatever the user answers, if it succeeds with dependency and conflict checks
      on, the packages present afterwards have unique names, no dependency is missing that was not
      missing before, and nothing installed conflicts with anything. */
  method Prepare(cfg: Config, add0: seq<Pkg>, rem0: seq<Pkg>, removes0: Removes, f: Flags, ans: Replies)
    returns (err: Error, add: seq<Pkg>, rem: seq<Pkg>, ghost targets: seq<Pkg>, ghost aside: seq<Pkg>)
    requires DbsUnique(cfg.sync) && UniquelyNamed(cfg.local) && UniquelyNamed(add0)
    ensures err == NoError ==> UniquelyNamed(After(Outcome(cfg, add, rem)))
    ensures err == NoError && !f.nodeps ==> KeepsDependencies(Outcome(cfg, add, rem))
    ensures err == NoError && !f.noconflicts ==> NoConflicts(Outcome(cfg, add, rem))
    ensures rem0 <= rem && UniquelyNamed(add) && (UniquelyNamed(rem0) ==> UniquelyNamed(rem))
    ensures Justifies(cfg, rem0, removes0, f.noconflicts, ans.giveUp, add, rem)
    ensures if err == NoError then Answered(cfg, add0, rem0, removes0, f, ans, targets, aside, add, rem)
            else Refused(cfg, add0, rem0, removes0, f, ans, err, targets, aside, add, rem)
  {
    add, rem, targets, aside := add0, rem0, add0, [];
    OnlyRequested(cfg, add0);
    if !f.nodeps {
      var resolved, unresolvable;
      err, resolved, unresolvable := Resolved(cfg, add, rem, removes0, ans.skip);
      targets, aside := resolved, unresolvable;
      if err != NoError {
        return err, add, rem, targets, aside;
      }
      add := resolved;
    }
    err, add, rem := Settled(cfg, add, rem, removes0, f.noconflicts, ans.giveUp);
    if err != NoError {
      return err, add, rem, targets, aside;
    }
    var c := Outcome(cfg, add, rem);
    AfterUnique(c);
    if !f.nodeps {
      var deps := CheckDeps(c, true);
      CheckDepsExact(c);
      if deps != [] {
        return MissingDeps, add, rem, targets, aside;
      }
    }
    err := if ans.loaded then NoError else LoadFailed;
  }
}
