/** Dependency resolution with rollback (lib/libalpm/deps.c: resolvedep, _alpm_resolvedeps). */
module Resolve {
  import opened Packages
  import opened Deps

  datatype Db = Db(pkgs: seq<Pkg>, usable: bool)

  /** What resolution looks at: repositories, installed packages and settings, and the position that the user names
      when asked for one of several providers. */
  datatype Config = Config(sync: seq<Db>, local: seq<Pkg>, assumed: seq<Depend>, nodepversion: bool,
                           ignored: set<string>, choose: (Depend, seq<Pkg>) -> int)

  /** A package of a database that may be used for d. */
  predicate Usable(cfg: Config, dbs: seq<Db>, excluding: seq<Pkg>, p: Pkg) {
    && (exists i :: 0 <= i < |dbs| && dbs[i].usable && p in dbs[i].pkgs)
    && !Named(excluding, p.name) && p.name !in cfg.ignored
  }

  predicate IsLiteral(cfg: Config, dbs: seq<Db>, excluding: seq<Pkg>, d: Depend, p: Pkg) {
    Usable(cfg, dbs, excluding, p) && SatisfiesLiterally(p, d)
  }

  predicate IsProvider(cfg: Config, dbs: seq<Db>, excluding: seq<Pkg>, d: Depend, p: Pkg) {
    Usable(cfg, dbs, excluding, p) && p.name != d.name && Provided(d, p.provisions)
  }

  ghost predicate DbsUnique(dbs: seq<Db>) {
    forall i :: 0 <= i < |dbs| ==> UniquelyNamed(dbs[i].pkgs)
  }

  /** A package of database i that may be used. */
  ghost predicate AtHand(cfg: Config, dbs: seq<Db>, excluding: seq<Pkg>, i: nat, p: Pkg) {
    i < |dbs| && dbs[i].usable && p in dbs[i].pkgs && !Named(excluding, p.name) && p.name !in cfg.ignored
  }

  /** p is of the very name, and no database before its own has such a package. */
  ghost predicate FirstLiteral(cfg: Config, dbs: seq<Db>, excluding: seq<Pkg>, d: Depend, p: Pkg) {
    exists i :: 0 <= i < |dbs| && AtHand(cfg, dbs, excluding, i, p) && SatisfiesLiterally(p, d)
      && forall j, q :: 0 <= j < i && AtHand(cfg, dbs, excluding, j, q) ==> !SatisfiesLiterally(q, d)
  }

  /** First search: a package of the very name, in database order. */
  method FindLiteral(cfg: Config, dbs: seq<Db>, excluding: seq<Pkg>, d: Depend) returns (r: Option<Pkg>)
    requires DbsUnique(dbs)
    ensures r != None ==> IsLiteral(cfg, dbs, excluding, d, r.value) && FirstLiteral(cfg, dbs, excluding, d, r.value)
    ensures r == None ==> forall p :: !IsLiteral(cfg, dbs, excluding, d, p)
  {
    for i := 0 to |dbs|
      invariant forall j, q :: 0 <= j < i && AtHand(cfg, dbs, excluding, j, q) ==> !SatisfiesLiterally(q, d)
    {
      if !dbs[i].usable {
        continue;
      }
      var pkg := FindPkg(dbs[i].pkgs, d.name);
      if pkg != None && SatisfiesLiterally(pkg.value, d) && !Named(excluding, pkg.value.name) {
        if pkg.value.name in cfg.ignored {
          continue;
        }
        assert AtHand(cfg, dbs, excluding, i, pkg.value);
        return pkg;
      }
      forall q | AtHand(cfg, dbs, excluding, i, q) ensures !SatisfiesLiterally(q, d) {
        if pkg != None && q.name == d.name { SameName(dbs[i].pkgs, q, pkg.value); }
      }
    }
    r := None;
    forall p, i | 0 <= i < |dbs| && dbs[i].usable && p in dbs[i].pkgs ensures !IsLiteral(cfg, dbs, excluding, d, p) {
      assert AtHand(cfg, dbs, excluding, i, p) ==> !SatisfiesLiterally(p, d);
    }
  }

  // ---------- providers ----------

  /** The packages of a database that provide d under another name, in order. */
  ghost function ProvidersIn(cfg: Config, pkgs: seq<Pkg>, excluding: seq<Pkg>, d: Depend): (r: seq<Pkg>) {
    if pkgs == [] then []
    else
      var n := |pkgs| - 1;
      ProvidersIn(cfg, pkgs[..n], excluding, d) + (if MayProvide(cfg, excluding, d, pkgs[n]) then [pkgs[n]] else [])
  }

  predicate MayProvide(cfg: Config, excluding: seq<Pkg>, d: Depend, p: Pkg) {
    p.name != d.name && Provided(d, p.provisions) && !Named(excluding, p.name) && p.name !in cfg.ignored
  }

  /** The providers of d, in database order; one that is in two databases counts twice. */
  ghost function Providers(cfg: Config, dbs: seq<Db>, excluding: seq<Pkg>, d: Depend): (r: seq<Pkg>) {
    if dbs == [] then []
    else
      var n := |dbs| - 1;
      Providers(cfg, dbs[..n], excluding, d)
      + (if dbs[n].usable then ProvidersIn(cfg, dbs[n].pkgs, excluding, d) else [])
  }

  lemma {:induction false} ProvidersInAre(cfg: Config, pkgs: seq<Pkg>, excluding: seq<Pkg>, d: Depend, p: Pkg)
    ensures p in ProvidersIn(cfg, pkgs, excluding, d) <==> p in pkgs && MayProvide(cfg, excluding, d, p)
  {
    if pkgs != [] {
      ProvidersInAre(cfg, pkgs[..|pkgs| - 1], excluding, d, p);
      assert pkgs == pkgs[..|pkgs| - 1] + [pkgs[|pkgs| - 1]];
    }
  }

  lemma {:induction false} ProvidersAre(cfg: Config, dbs: seq<Db>, excluding: seq<Pkg>, d: Depend, p: Pkg)
    ensures p in Providers(cfg, dbs, excluding, d) <==> IsProvider(cfg, dbs, excluding, d, p)
  {
    if dbs != [] {
      var n := |dbs| - 1;
      ProvidersAre(cfg, dbs[..n], excluding, d, p);
      ProvidersInAre(cfg, dbs[n].pkgs, excluding, d, p);
      assert forall i :: 0 <= i < n ==> dbs[..n][i] == dbs[i];
      if IsProvider(cfg, dbs, excluding, d, p) {
        var i :| 0 <= i < |dbs| && dbs[i].usable && p in dbs[i].pkgs;
        assert i < n ==> dbs[..n][i].usable && p in dbs[..n][i].pkgs;
      }
    }
  }

  /** The first provider of the list that is installed. */
  ghost predicate FirstInstalled(cfg: Config, providers: seq<Pkg>, p: Pkg) {
    exists k :: 0 <= k < |providers| && providers[k] == p && Named(cfg.local, p.name)
      && forall j :: 0 <= j < k ==> !Named(cfg.local, providers[j].name)
  }

  ghost predicate NoneInstalled(cfg: Config, providers: seq<Pkg>) {
    forall k :: 0 <= k < |providers| ==> !Named(cfg.local, providers[k].name)
  }

  /** Second search: the providers, in database order; the first one that is installed ends the search. */
  method FindProviders(cfg: Config, dbs: seq<Db>, excluding: seq<Pkg>, d: Depend)
    returns (installed: Option<Pkg>, providers: seq<Pkg>)
    ensures installed != None ==> FirstInstalled(cfg, Providers(cfg, dbs, excluding, d), installed.value)
    ensures installed == None ==> providers == Providers(cfg, dbs, excluding, d) && NoneInstalled(cfg, providers)
  {
    providers := [];
    for i := 0 to |dbs|
      invariant providers == Providers(cfg, dbs[..i], excluding, d) && NoneInstalled(cfg, providers)
    {
      assert dbs[..i + 1][..i] == dbs[..i];
      if !dbs[i].usable {
        continue;
      }
      var more;
      installed, more := FindProvidersIn(cfg, dbs[i].pkgs, excluding, d);
      if installed != None {
        FoundBefore(cfg, dbs, excluding, d, i, installed.value);
        return;
      }
      providers := providers + more;
    }
    assert dbs[..|dbs|] == dbs;
    installed := None;
  }

  method FindProvidersIn(cfg: Config, pkgs: seq<Pkg>, excluding: seq<Pkg>, d: Depend)
    returns (installed: Option<Pkg>, providers: seq<Pkg>)
    ensures installed != None ==> FirstInstalled(cfg, ProvidersIn(cfg, pkgs, excluding, d), installed.value)
    ensures installed == None ==> providers == ProvidersIn(cfg, pkgs, excluding, d) && NoneInstalled(cfg, providers)
  {
    providers := [];
    for k := 0 to |pkgs|
      invariant providers == ProvidersIn(cfg, pkgs[..k], excluding, d) && NoneInstalled(cfg, providers)
    {
      assert pkgs[..k + 1][..k] == pkgs[..k];
      var pkg := pkgs[k];
      if pkg.name != d.name && Provided(d, pkg.provisions) && !Named(excluding, pkg.name) && pkg.name !in cfg.ignored {
        if Named(cfg.local, pkg.name) {
          InPrefix(cfg, pkgs, excluding, d, k + 1);
          assert ProvidersIn(cfg, pkgs[..k + 1], excluding, d) == providers + [pkg];
          assert ProvidersIn(cfg, pkgs, excluding, d)[|providers|] == (providers + [pkg])[|providers|] == pkg;
          return Some(pkg), providers;
        }
        providers := providers + [pkg];
      }
    }
    assert pkgs[..|pkgs|] == pkgs;
    installed := None;
  }

  lemma {:induction false} InPrefix(cfg: Config, pkgs: seq<Pkg>, excluding: seq<Pkg>, d: Depend, k: nat)
    requires k <= |pkgs|
    ensures ProvidersIn(cfg, pkgs[..k], excluding, d) <= ProvidersIn(cfg, pkgs, excluding, d)
    decreases |pkgs|
  {
    if k < |pkgs| {
      InPrefix(cfg, pkgs[..|pkgs| - 1], excluding, d, k);
      assert pkgs[..|pkgs| - 1][..k] == pkgs[..k];
    } else {
      assert pkgs[..k] == pkgs;
    }
  }

  lemma {:induction false} OfPrefix(cfg: Config, dbs: seq<Db>, excluding: seq<Pkg>, d: Depend, k: nat)
    requires k <= |dbs|
    ensures Providers(cfg, dbs[..k], excluding, d) <= Providers(cfg, dbs, excluding, d)
    decreases |dbs|
  {
    if k < |dbs| {
      OfPrefix(cfg, dbs[..|dbs| - 1], excluding, d, k);
      assert dbs[..|dbs| - 1][..k] == dbs[..k];
    } else {
      assert dbs[..k] == dbs;
    }
  }

  /** The first installed provider of a database is the first of all if none before is installed. */
  lemma FoundBefore(cfg: Config, dbs: seq<Db>, excluding: seq<Pkg>, d: Depend, i: nat, p: Pkg)
    requires i < |dbs| && dbs[i].usable && NoneInstalled(cfg, Providers(cfg, dbs[..i], excluding, d))
    requires FirstInstalled(cfg, ProvidersIn(cfg, dbs[i].pkgs, excluding, d), p)
    ensures FirstInstalled(cfg, Providers(cfg, dbs, excluding, d), p)
  {
    var before, here := Providers(cfg, dbs[..i], excluding, d), ProvidersIn(cfg, dbs[i].pkgs, excluding, d);
    var k :| 0 <= k < |here| && here[k] == p && Named(cfg.local, p.name)
      && forall j :: 0 <= j < k ==> !Named(cfg.local, here[j].name);
    assert dbs[..i + 1][..i] == dbs[..i];
    assert Providers(cfg, dbs[..i + 1], excluding, d) == before + here;
    OfPrefix(cfg, dbs, excluding, d, i + 1);
    var all, n := Providers(cfg, dbs, excluding, d), |before| + k;
    assert forall j :: 0 <= j < |before + here| ==> all[j] == (before + here)[j];
    assert all[n] == p;
    forall j | 0 <= j < n ensures !Named(cfg.local, all[j].name) {
      assert all[j] == if j < |before| then before[j] else here[j - |before|];
    }
  }

  /** resolvedep without prompting for ignored packages. A package of the very name comes first, from the first
      database that has one; then the first provider that is installed; then the only provider. With several the
      user is asked for one by position, and may name none. */
  method ResolveDep(cfg: Config, d: Depend, dbs: seq<Db>, excluding: seq<Pkg>) returns (r: Option<Pkg>, asked: bool)
    requires DbsUnique(dbs)
    ensures r != None ==> Usable(cfg, dbs, excluding, r.value) && Satisfies(r.value, d)
    ensures r != None ==> r.value.name !in cfg.ignored && !Named(excluding, r.value.name)
    ensures r != None ==> exists i :: 0 <= i < |dbs| && dbs[i].usable && r.value in dbs[i].pkgs
    ensures (exists p :: IsLiteral(cfg, dbs, excluding, d, p)) ==>
      r != None && !asked && FirstLiteral(cfg, dbs, excluding, d, r.value)
    ensures (forall p :: !IsLiteral(cfg, dbs, excluding, d, p)) ==>
      var ps := Providers(cfg, dbs, excluding, d);
      if NoneInstalled(cfg, ps) then
        && (asked <==> |ps| > 1) && (|ps| == 1 ==> r == Some(ps[0])) && (r != None ==> r.value in ps)
        && (asked ==> r == var k := cfg.choose(d, ps); if 0 <= k < |ps| then Some(ps[k]) else None)
      else !asked && r != None && FirstInstalled(cfg, ps, r.value)
    ensures r == None && !asked ==>
      forall p :: !IsLiteral(cfg, dbs, excluding, d, p) && !IsProvider(cfg, dbs, excluding, d, p)
  {
    asked := false;
    r := FindLiteral(cfg, dbs, excluding, d);
    if r != None {
      return;
    }
    forall p ensures p in Providers(cfg, dbs, excluding, d) <==> IsProvider(cfg, dbs, excluding, d, p) {
      ProvidersAre(cfg, dbs, excluding, d, p);
    }
    var installed, providers := FindProviders(cfg, dbs, excluding, d);
    if installed != None {
      assert installed.value in Providers(cfg, dbs, excluding, d);
      return installed, false;
    }
    if |providers| >= 1 {
      var index := 0;
      if |providers| > 1 {
        asked := true;
        index := cfg.choose(d, providers);
      }
      if 0 <= index < |providers| {
        assert providers[index] in Providers(cfg, dbs, excluding, d);
        return Some(providers[index]), asked;
      }
    }
    r := None;
  }

  // ---------- _alpm_resolvedeps ----------

  /** The packages that resolution can meet. */
  ghost predicate Known(cfg: Config, preferred: seq<Pkg>, p: Pkg) {
    p in preferred || exists i :: 0 <= i < |cfg.sync| && p in cfg.sync[i].pkgs
  }

  ghost predicate OnePerName(cfg: Config, preferred: seq<Pkg>) {
    forall p, q :: Known(cfg, preferred, p) && Known(cfg, preferred, q) && p.name == q.name ==> p == q
  }

  function NamesOf(pkgs: seq<Pkg>): (r: set<string>) {
    set i | 0 <= i < |pkgs| :: pkgs[i].name
  }

  ghost function KnownNames(cfg: Config, preferred: seq<Pkg>): (r: set<string>) {
    NamesOf(preferred) + (set i, j | 0 <= i < |cfg.sync| && 0 <= j < |cfg.sync[i].pkgs| :: cfg.sync[i].pkgs[j].name)
  }

  /** The dependency is met by a chosen package, by an installed one that stays, or by assumption. */
  ghost predicate Met(cfg: Config, rem: seq<Pkg>, packages: seq<Pkg>, d: Depend) {
    || SatisfiedBy(d, packages)
    || (exists q :: q in cfg.local && !Named(rem, q.name) && Satisfies(q, d))
    || Provided(d, cfg.assumed)
  }

  /** Every dependency of the packages from position n on is met. */
  ghost predicate MetFrom(cfg: Config, rem: seq<Pkg>, packages: seq<Pkg>, n: nat) {
    forall k, d :: n <= k < |packages| && d in packages[k].depends ==>
      Met(cfg, rem, packages, Compared(cfg.nodepversion, d))
  }

  lemma MetMonotone(cfg: Config, rem: seq<Pkg>, packages: seq<Pkg>, packages': seq<Pkg>, d: Depend)
    requires packages <= packages' && Met(cfg, rem, packages, d)
    ensures Met(cfg, rem, packages', d)
  {
    if SatisfiedBy(d, packages) {
      var i :| 0 <= i < |packages| && Satisfies(packages[i], d);
      assert packages'[i] == packages[i];
    }
  }

  lemma MetFromMonotone(cfg: Config, rem: seq<Pkg>, packages: seq<Pkg>, packages': seq<Pkg>, n: nat)
    requires packages <= packages' && n <= |packages| && MetFrom(cfg, rem, packages, n)
    requires MetFrom(cfg, rem, packages', |packages|)
    ensures MetFrom(cfg, rem, packages', n)
  {
    forall k, d | n <= k < |packages'| && d in packages'[k].depends
      ensures Met(cfg, rem, packages', Compared(cfg.nodepversion, d))
    {
      if k < |packages| {
        assert packages'[k] == packages[k];
        MetMonotone(cfg, rem, packages, packages', Compared(cfg.nodepversion, d));
      }
    }
  }

  lemma {:induction false} ComplaintListed(c: Change, p: Pkg, deps: seq<Depend>, d: Depend)
    requires d in deps && !SatisfiedAfter(c, Compared(c.nodepversion, d))
    ensures Missing(p.name, Compared(c.nodepversion, d), None) in PkgComplaints(c, p, deps, false)
  {
    var n := |deps| - 1;
    if d != deps[n] {
      assert deps == deps[..n] + [deps[n]];
      ComplaintListed(c, p, deps[..n], d);
    }
  }

  function Trial(cfg: Config, localpkgs: seq<Pkg>, rem: seq<Pkg>, pkg: Pkg): (c: Change) {
    Change(localpkgs, rem, [pkg], cfg.assumed, cfg.nodepversion)
  }

  /** When all that checkdeps complains about is met, all dependencies of the package are. */
  lemma AllMet(cfg: Config, localpkgs: seq<Pkg>, rem: seq<Pkg>, pkg: Pkg, packages: seq<Pkg>)
    requires pkg in packages && forall p :: p in localpkgs ==> p in cfg.local
    requires forall m :: m in BadDeps(Trial(cfg, localpkgs, rem, pkg), false) ==> Met(cfg, rem, packages, m.depend)
    ensures forall d :: d in pkg.depends ==> Met(cfg, rem, packages, Compared(cfg.nodepversion, d))
  {
    var c := Trial(cfg, localpkgs, rem, pkg);
    assert [pkg][..0] == [] && Complaints(c, [pkg], false) == PkgComplaints(c, pkg, pkg.depends, false);
    forall d | d in pkg.depends ensures Met(cfg, rem, packages, Compared(cfg.nodepversion, d)) {
      var e := Compared(c.nodepversion, d);
      if !SatisfiedAfter(c, e) {
        ComplaintListed(c, pkg, pkg.depends, d);
      } else if SatisfiedBy(e, Kept(c)) {
        var i :| 0 <= i < |Kept(c)| && Satisfies(Kept(c)[i], e);
        SelectMembers(c, localpkgs, false, Kept(c)[i]);
        assert Kept(c)[i] in cfg.local;
      } else if SatisfiedBy(e, [pkg]) {
        var i :| 0 <= i < |packages| && packages[i] == pkg;
        assert Satisfies(packages[i], e);
      }
    }
  }

  // ---------- nothing is pulled in without need ----------

  ghost predicate NeedsIt(cfg: Config, p: Pkg, q: Pkg) {
    exists d :: d in p.depends && Satisfies(q, Compared(cfg.nodepversion, d))
  }

  /** A package before position k, from n on, has a dependency that the one at k satisfies. */
  ghost predicate IsWanted(cfg: Config, packages: seq<Pkg>, n: nat, k: nat) {
    k < |packages| && exists j :: n <= j < k && NeedsIt(cfg, packages[j], packages[k])
  }

  /** Everything after the package at position n is there for one that comes before. */
  ghost predicate AllWanted(cfg: Config, packages: seq<Pkg>, n: nat) {
    forall k :: n < k < |packages| ==> IsWanted(cfg, packages, n, k)
  }

  lemma MissingNeeded(cfg: Config, localpkgs: seq<Pkg>, rem: seq<Pkg>, pkg: Pkg, m: Missing, q: Pkg)
    requires m in BadDeps(Trial(cfg, localpkgs, rem, pkg), false) && Satisfies(q, m.depend)
    ensures NeedsIt(cfg, pkg, q)
  {
    var c := Trial(cfg, localpkgs, rem, pkg);
    assert [pkg][..0] == [] && Complaints(c, [pkg], false) == PkgComplaints(c, pkg, pkg.depends, false);
    InPkgComplaints(c, pkg, pkg.depends, false, m);
  }

  /** What is pulled in for the package at n is wanted, with all that it pulls in itself. */
  lemma MoreWanted(cfg: Config, packages: seq<Pkg>, more: seq<Pkg>, n: nat)
    requires packages <= more && n < |packages| && AllWanted(cfg, packages, n)
    requires packages == more
      || (|packages| < |more| && NeedsIt(cfg, more[n], more[|packages|]) && AllWanted(cfg, more, |packages|))
    ensures AllWanted(cfg, more, n)
  {
    forall k | n < k < |more| ensures IsWanted(cfg, more, n, k) {
      if k < |packages| {
        assert IsWanted(cfg, packages, n, k);
        var j :| n <= j < k && NeedsIt(cfg, packages[j], packages[k]);
        assert more[j] == packages[j] && more[k] == packages[k];
      } else if k > |packages| {
        assert IsWanted(cfg, more, |packages|, k);
      }
    }
  }

  /** The inputs of resolution are in order. */
  ghost predicate Inputs(cfg: Config, localpkgs: seq<Pkg>, preferred: seq<Pkg>, packages: seq<Pkg>) {
    && DbsUnique(cfg.sync) && UniquelyNamed(cfg.local) && UniquelyNamed(packages)
    && (forall p :: p in localpkgs ==> p in cfg.local)
    && (forall k :: 0 <= k < |packages| ==> Known(cfg, preferred, packages[k]))
  }

  lemma KnownName(cfg: Config, preferred: seq<Pkg>, p: Pkg)
    requires Known(cfg, preferred, p)
    ensures p.name in KnownNames(cfg, preferred)
  {
    if p in preferred {
      var i :| 0 <= i < |preferred| && preferred[i] == p;
    } else {
      var i :| 0 <= i < |cfg.sync| && p in cfg.sync[i].pkgs;
      var j :| 0 <= j < |cfg.sync[i].pkgs| && cfg.sync[i].pkgs[j] == p;
    }
  }

  lemma FewerNames(cfg: Config, preferred: seq<Pkg>, packages0: seq<Pkg>, pkg: Pkg, packages: seq<Pkg>)
    requires Known(cfg, preferred, pkg) && !Named(packages0, pkg.name) && packages0 + [pkg] <= packages
    ensures KnownNames(cfg, preferred) - NamesOf(packages) < KnownNames(cfg, preferred) - NamesOf(packages0)
  {
    KnownName(cfg, preferred, pkg);
    assert packages[|packages0|] == (packages0 + [pkg])[|packages0|] == pkg;
    assert pkg.name in NamesOf(packages) && pkg.name !in NamesOf(packages0);
    forall name | name in NamesOf(packages0) ensures name in NamesOf(packages) {
      var i :| 0 <= i < |packages0| && packages0[i].name == name;
      assert packages[i] == (packages0 + [pkg])[i] == packages0[i];
    }
  }

  /** The dependency certainly has a solution: a chosen package, or an installed one of that name. */
  ghost predicate Solvable(cfg: Config, rem: seq<Pkg>, packages: seq<Pkg>, d: Depend) {
    SatisfiedBy(d, packages) || exists p :: IsLiteral(cfg, [Db(cfg.local, true)], rem, d, p)
  }

  lemma SolvableMonotone(cfg: Config, rem: seq<Pkg>, packages: seq<Pkg>, packages': seq<Pkg>, d: Depend)
    requires Solvable(cfg, rem, packages, d) && forall p :: p in packages ==> p in packages'
    ensures Solvable(cfg, rem, packages', d)
  {
    if SatisfiedBy(d, packages) {
      var i :| 0 <= i < |packages| && Satisfies(packages[i], d);
      assert packages[i] in packages';
      var j :| 0 <= j < |packages'| && packages'[j] == packages[i];
    }
  }

  // ---------- what is certain to be resolved ----------

  /** q may be chosen for d: the first target that satisfies it or, without one, a package of that very name
      from a repository. */
  ghost predicate Candidate(cfg: Config, preferred: seq<Pkg>, d: Depend, q: Pkg) {
    if SatisfiedBy(d, preferred) then IsFirstSatisfier(preferred, d, q) else IsLiteral(cfg, cfg.sync, [], d, q)
  }

  /** The dependency is met by an installed package of that name, or there are candidates and all are in R. */
  ghost predicate Certain(cfg: Config, preferred: seq<Pkg>, rem: seq<Pkg>, R: set<Pkg>, d: Depend) {
    || (exists p :: IsLiteral(cfg, [Db(cfg.local, true)], rem, d, p))
    || ((exists q :: Candidate(cfg, preferred, d, q)) && forall q :: Candidate(cfg, preferred, d, q) ==> q in R)
  }

  /** All that the packages of R miss is certain. */
  ghost predicate SelfContained(cfg: Config, localpkgs: seq<Pkg>, preferred: seq<Pkg>, rem: seq<Pkg>, R: set<Pkg>) {
    forall p, m :: p in R && m in BadDeps(Trial(cfg, localpkgs, rem, p), false) ==>
      Certain(cfg, preferred, rem, R, m.depend)
  }

  /** The package belongs to a set whose dependencies are certain; they may be circular. */
  ghost predicate Resolvable(cfg: Config, localpkgs: seq<Pkg>, preferred: seq<Pkg>, rem: seq<Pkg>, p: Pkg) {
    exists R: set<Pkg> :: SelfContained(cfg, localpkgs, preferred, rem, R) && p in R
  }

  ghost predicate Obtainable(cfg: Config, localpkgs: seq<Pkg>, preferred: seq<Pkg>, rem: seq<Pkg>, d: Depend) {
    exists R: set<Pkg> :: SelfContained(cfg, localpkgs, preferred, rem, R) && Certain(cfg, preferred, rem, R, d)
  }

  /** What a resolvable package misses is obtainable. */
  lemma MissingObtainable(cfg: Config, localpkgs: seq<Pkg>, preferred: seq<Pkg>, rem: seq<Pkg>, p: Pkg, m: Missing)
    requires Resolvable(cfg, localpkgs, preferred, rem, p) && m in BadDeps(Trial(cfg, localpkgs, rem, p), false)
    ensures Obtainable(cfg, localpkgs, preferred, rem, m.depend)
  {
    var R: set<Pkg> :| SelfContained(cfg, localpkgs, preferred, rem, R) && p in R;
  }

  /** Where a dependency is obtainable and not installed, there is a candidate and every candidate resolves. */
  lemma CandidatesResolve(cfg: Config, localpkgs: seq<Pkg>, preferred: seq<Pkg>, rem: seq<Pkg>, d: Depend)
    requires Obtainable(cfg, localpkgs, preferred, rem, d)
    requires forall p :: !IsLiteral(cfg, [Db(cfg.local, true)], rem, d, p)
    ensures exists q :: Candidate(cfg, preferred, d, q)
    ensures forall q :: Candidate(cfg, preferred, d, q) ==> Resolvable(cfg, localpkgs, preferred, rem, q)
  {
    var R: set<Pkg> :| SelfContained(cfg, localpkgs, preferred, rem, R) && Certain(cfg, preferred, rem, R, d);
  }

  /** With one package a name, a candidate from a repository is not on the list yet. */
  lemma NotExcluded(cfg: Config, preferred: seq<Pkg>, packages: seq<Pkg>, d: Depend, q: Pkg)
    requires OnePerName(cfg, preferred) && forall k :: 0 <= k < |packages| ==> Known(cfg, preferred, packages[k])
    requires !SatisfiedBy(d, packages) && IsLiteral(cfg, cfg.sync, [], d, q)
    ensures IsLiteral(cfg, cfg.sync, packages, d, q)
  {
    assert Known(cfg, preferred, q);
    forall k | 0 <= k < |packages| ensures packages[k].name != q.name {
      assert !Satisfies(packages[k], d) && Known(cfg, preferred, packages[k]);
    }
  }

  /** Chooses a package for a dependency that no chosen one satisfies. */
  method Choose(cfg: Config, d: Depend, preferred: seq<Pkg>, packages: seq<Pkg>) returns (spkg: Option<Pkg>)
    requires DbsUnique(cfg.sync) && !SatisfiedBy(d, packages) && forall k :: 0 <= k < |packages| ==>
      Known(cfg, preferred, packages[k])
    ensures spkg != None ==> Known(cfg, preferred, spkg.value) && Satisfies(spkg.value, d)
    ensures OnePerName(cfg, preferred) && (exists q :: Candidate(cfg, preferred, d, q)) ==>
      spkg != None && Candidate(cfg, preferred, d, spkg.value)
    ensures SatisfiedBy(d, preferred) ==> spkg != None && IsFirstSatisfier(preferred, d, spkg.value)
    ensures !SatisfiedBy(d, preferred) && (exists q :: IsLiteral(cfg, cfg.sync, packages, d, q)) ==>
      spkg != None && FirstLiteral(cfg, cfg.sync, packages, d, spkg.value)
  {
    spkg := FindSatisfier(preferred, d);
    if spkg == None {
      var asked;
      spkg, asked := ResolveDep(cfg, d, cfg.sync, packages);
      if OnePerName(cfg, preferred) && exists q :: Candidate(cfg, preferred, d, q) {
        var q :| Candidate(cfg, preferred, d, q);
        NotExcluded(cfg, preferred, packages, d, q);
        assert IsLiteral(cfg, cfg.sync, [], d, spkg.value);
      }
    }
  }

  ghost predicate AllMetSoFar(cfg: Config, rem: seq<Pkg>, packages: seq<Pkg>, deps: seq<Missing>, j: nat) {
    j <= |deps| && forall k :: 0 <= k < j ==> Met(cfg, rem, packages, deps[k].depend)
  }

  lemma OneMoreMet(cfg: Config, rem: seq<Pkg>, packages: seq<Pkg>, more: seq<Pkg>, deps: seq<Missing>, j: nat)
    requires AllMetSoFar(cfg, rem, packages, deps, j) && j < |deps| && packages <= more
    requires Met(cfg, rem, more, deps[j].depend)
    ensures AllMetSoFar(cfg, rem, more, deps, j + 1)
  {
    forall k | 0 <= k < j ensures Met(cfg, rem, more, deps[k].depend) {
      MetMonotone(cfg, rem, packages, more, deps[k].depend);
    }
  }

  /** Some of these is not solvable, and some not obtainable. */
  ghost predicate SomeUnsolved(cfg: Config, localpkgs: seq<Pkg>, preferred: seq<Pkg>, rem: seq<Pkg>, packages: seq<Pkg>,
                               deps: seq<Missing>) {
    && (exists m :: m in deps && !Solvable(cfg, rem, packages, m.depend))
    && (OnePerName(cfg, preferred) ==> exists m :: m in deps && !Obtainable(cfg, localpkgs, preferred, rem, m.depend))
  }

  lemma OneMoreUnsolved(cfg: Config, localpkgs: seq<Pkg>, preferred: seq<Pkg>, rem: seq<Pkg>, start: seq<Pkg>,
                        packages: seq<Pkg>,
                        deps: seq<Missing>, j: nat, ok: bool, met: bool)
    requires start <= packages && j < |deps| && (!ok ==> SomeUnsolved(cfg, localpkgs, preferred, rem, start, deps[..j]))
    requires Solvable(cfg, rem, packages, deps[j].depend) ==> met
    requires OnePerName(cfg, preferred) && Obtainable(cfg, localpkgs, preferred, rem, deps[j].depend) ==> met
    ensures !(ok && met) ==> SomeUnsolved(cfg, localpkgs, preferred, rem, start, deps[..j + 1])
  {
    assert deps[..j + 1] == deps[..j] + [deps[j]];
    assert deps[j] in deps[..j + 1] && forall p :: p in start ==> p in packages;
    if Solvable(cfg, rem, start, deps[j].depend) {
      SolvableMonotone(cfg, rem, start, packages, deps[j].depend);
    }
  }

  lemma StillWanted(cfg: Config, localpkgs: seq<Pkg>, rem: seq<Pkg>, pkg: Pkg, packages0: seq<Pkg>, packages: seq<Pkg>,
                    more: seq<Pkg>, m: Missing)
    requires packages0 + [pkg] <= packages <= more && m in BadDeps(Trial(cfg, localpkgs, rem, pkg), false)
    requires AllWanted(cfg, packages, |packages0|)
    requires more == packages
      || (|packages| < |more| && Satisfies(more[|packages|], m.depend) && AllWanted(cfg, more, |packages|))
    ensures AllWanted(cfg, more, |packages0|)
  {
    var n := |packages0|;
    assert more[n] == packages[n] == (packages0 + [pkg])[n] == pkg;
    if more != packages { MissingNeeded(cfg, localpkgs, rem, pkg, m, more[|packages|]); }
    MoreWanted(cfg, packages, more, n);
  }

  /** One missing dependency: an already chosen package, a preferred one, one from the repositories
      together with its own dependencies, or an installed one. */
  method ResolveMissing(cfg: Config, localpkgs: seq<Pkg>, d: Depend, preferred: seq<Pkg>, packages0: seq<Pkg>,
                        rem: seq<Pkg>)
    returns (ok: bool, packages: seq<Pkg>)
    requires Inputs(cfg, localpkgs, preferred, packages0)
    ensures packages0 <= packages && (!ok ==> packages == packages0) && Inputs(cfg, localpkgs, preferred, packages)
    ensures OnePerName(cfg, preferred) ==>
      MetFrom(cfg, rem, packages, |packages0|) && (ok ==> Met(cfg, rem, packages, d))
    ensures SatisfiedBy(d, packages0) ==> ok && packages == packages0
    ensures packages == packages0
      || (|packages0| < |packages| && Satisfies(packages[|packages0|], d) && AllWanted(cfg, packages, |packages0|))
    ensures Solvable(cfg, rem, packages0, d) ==> ok
    ensures OnePerName(cfg, preferred) && Obtainable(cfg, localpkgs, preferred, rem, d) ==> ok
    decreases KnownNames(cfg, preferred) - NamesOf(packages0), 1
  {
    packages := packages0;
    var present := FindSatisfier(packages, d);
    if present != None {
      return true, packages;
    }
    var spkg := Choose(cfg, d, preferred, packages);
    var resolved := false;
    if spkg != None {
      resolved, packages := ResolveDeps(cfg, localpkgs, spkg.value, preferred, packages, rem);
    }
    if resolved {
      return true, packages;
    }
    var installed, asked := ResolveDep(cfg, d, [Db(cfg.local, true)], rem);
    ok := installed != None;
    if !ok && Obtainable(cfg, localpkgs, preferred, rem, d) {
      CandidatesResolve(cfg, localpkgs, preferred, rem, d);
    }
  }

  /** _alpm_resolvedeps: on failure the list is what it was; on success it holds the package and all it
      needs. */
  method ResolveDeps(cfg: Config, localpkgs: seq<Pkg>, pkg: Pkg, preferred: seq<Pkg>, packages0: seq<Pkg>,
                     rem: seq<Pkg>)
    returns (ok: bool, packages: seq<Pkg>)
    requires Inputs(cfg, localpkgs, preferred, packages0) && Known(cfg, preferred, pkg)
    ensures !ok || Named(packages0, pkg.name) ==> packages == packages0
    ensures Named(packages0, pkg.name) ==> ok
    ensures ok && !Named(packages0, pkg.name) ==> packages0 + [pkg] <= packages && AllWanted(cfg, packages, |packages0|)
    ensures ok ==> packages0 <= packages && Inputs(cfg, localpkgs, preferred, packages) && Named(packages, pkg.name)
    ensures ok && OnePerName(cfg, preferred) ==> pkg in packages && MetFrom(cfg, rem, packages, |packages0|)
    ensures (forall m :: m in BadDeps(Trial(cfg, localpkgs, rem, pkg), false) ==>
      Solvable(cfg, rem, packages0 + [pkg], m.depend)) ==> ok
    ensures OnePerName(cfg, preferred) && Resolvable(cfg, localpkgs, preferred, rem, pkg) ==> ok
    decreases KnownNames(cfg, preferred) - NamesOf(packages0), 0
  {
    if Named(packages0, pkg.name) {
      return true, packages0;
    }
    packages, ok := packages0 + [pkg], true;
    var deps := CheckDeps(Trial(cfg, localpkgs, rem, pkg), false);
    for j := 0 to |deps|
      invariant packages0 + [pkg] <= packages && Inputs(cfg, localpkgs, preferred, packages)
      invariant AllWanted(cfg, packages, |packages0|)
      invariant OnePerName(cfg, preferred) ==> MetFrom(cfg, rem, packages, |packages0| + 1)
      invariant OnePerName(cfg, preferred) && ok ==> AllMetSoFar(cfg, rem, packages, deps, j)
      invariant !ok ==> SomeUnsolved(cfg, localpkgs, preferred, rem, packages0 + [pkg], deps[..j])
    {
      FewerNames(cfg, preferred, packages0, pkg, packages);
      var met, more := ResolveMissing(cfg, localpkgs, deps[j].depend, preferred, packages, rem);
      if OnePerName(cfg, preferred) {
        MetFromMonotone(cfg, rem, packages, more, |packages0| + 1);
        if ok && met { OneMoreMet(cfg, rem, packages, more, deps, j); }
      }
      OneMoreUnsolved(cfg, localpkgs, preferred, rem, packages0 + [pkg], packages, deps, j, ok, met);
      StillWanted(cfg, localpkgs, rem, pkg, packages0, packages, more, deps[j]);
      ok := ok && met;
      packages := more;
    }
    assert deps[..|deps|] == deps;
    if !ok {
      packages := packages0;
      forall m | m in deps && Resolvable(cfg, localpkgs, preferred, rem, pkg)
        ensures Obtainable(cfg, localpkgs, preferred, rem, m.depend)
      {
        MissingObtainable(cfg, localpkgs, preferred, rem, pkg, m);
      }
    } else {
      Finished(cfg, localpkgs, pkg, preferred, packages0, rem, packages);
    }
  }

  lemma Finished(cfg: Config, localpkgs: seq<Pkg>, pkg: Pkg, preferred: seq<Pkg>, packages0: seq<Pkg>, rem: seq<Pkg>,
                 packages: seq<Pkg>)
    requires packages0 + [pkg] <= packages && forall p :: p in localpkgs ==> p in cfg.local
    ensures packages0 <= packages && Named(packages, pkg.name) && pkg in packages
    ensures MetFrom(cfg, rem, packages, |packages0| + 1)
      && (forall m :: m in BadDeps(Trial(cfg, localpkgs, rem, pkg), false) ==> Met(cfg, rem, packages, m.depend))
      ==> MetFrom(cfg, rem, packages, |packages0|)
  {
    var n := |packages0|;
    assert packages[n] == (packages0 + [pkg])[n] == pkg;
    assert packages0 == (packages0 + [pkg])[..n];
    if forall m :: m in BadDeps(Trial(cfg, localpkgs, rem, pkg), false) ==> Met(cfg, rem, packages, m.depend) {
      AllMet(cfg, localpkgs, rem, pkg, packages);
    }
  }
}
