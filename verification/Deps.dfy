/** Dependency satisfaction and alpm_checkdeps (lib/libalpm/deps.c). */
module Deps {
  import opened Packages
  import opened Version

  predicate VersionOk(version1: Option<string>, mod: DepMod, version2: Option<string>) {
    match mod
    case ANY => true
    case EQ => VerCmp(version1, version2) == 0
    case GE => VerCmp(version1, version2) >= 0
    case LE => VerCmp(version1, version2) <= 0
    case LT => VerCmp(version1, version2) < 0
    case GT => VerCmp(version1, version2) > 0
  }

  predicate SatisfiesLiterally(p: Pkg, d: Depend) {
    p.name == d.name && VersionOk(Some(p.version), d.mod, d.version)
  }

  /** One provision satisfies a dependency: an unversioned one only if no version is asked for. */
  predicate Provides(pr: Depend, d: Depend) {
    pr.name == d.name && (d.mod == ANY || (pr.mod == EQ && VersionOk(pr.version, d.mod, d.version)))
  }

  predicate Provided(d: Depend, provisions: seq<Depend>) {
    exists i :: 0 <= i < |provisions| && Provides(provisions[i], d)
  }

  predicate Satisfies(p: Pkg, d: Depend) {
    SatisfiesLiterally(p, d) || Provided(d, p.provisions)
  }

  predicate SatisfiedBy(d: Depend, pkgs: seq<Pkg>) {
    exists i :: 0 <= i < |pkgs| && Satisfies(pkgs[i], d)
  }

  /** p1 depends on p2. */
  predicate DependsOn(p1: Pkg, p2: Pkg) {
    exists i :: 0 <= i < |p1.depends| && Satisfies(p2, p1.depends[i])
  }

  predicate Named(pkgs: seq<Pkg>, name: string) {
    exists i :: 0 <= i < |pkgs| && pkgs[i].name == name
  }

  ghost predicate UniquelyNamed(pkgs: seq<Pkg>) {
    forall i, j :: 0 <= i < j < |pkgs| ==> pkgs[i].name != pkgs[j].name
  }

  lemma NamedLonger(a: seq<Pkg>, b: seq<Pkg>, name: string)
    requires a <= b
    ensures Named(a, name) ==> Named(b, name)
  {
    if Named(a, name) {
      var k :| 0 <= k < |a| && a[k].name == name;
      assert b[k] == a[k];
    }
  }

  lemma SameName(pkgs: seq<Pkg>, p: Pkg, q: Pkg)
    requires UniquelyNamed(pkgs) && p in pkgs && q in pkgs && p.name == q.name
    ensures p == q
  {
    var i :| 0 <= i < |pkgs| && pkgs[i] == p;
    var j :| 0 <= j < |pkgs| && pkgs[j] == q;
    assert !(i < j) && !(j < i);
  }

  ghost predicate IsFirstSatisfier(pkgs: seq<Pkg>, d: Depend, p: Pkg) {
    Satisfies(p, d) && exists i :: 0 <= i < |pkgs| && pkgs[i] == p && forall j :: 0 <= j < i ==> !Satisfies(pkgs[j], d)
  }

  /** find_dep_satisfier: the first package of the list that satisfies d. */
  method FindSatisfier(pkgs: seq<Pkg>, d: Depend) returns (r: Option<Pkg>)
    ensures r == None <==> !SatisfiedBy(d, pkgs)
    ensures r != None ==> IsFirstSatisfier(pkgs, d, r.value)
  {
    for i := 0 to |pkgs|
      invariant forall j :: 0 <= j < i ==> !Satisfies(pkgs[j], d)
    {
      if Satisfies(pkgs[i], d) {
        return Some(pkgs[i]);
      }
    }
    r := None;
  }

  /** alpm_pkg_find */
  method FindPkg(pkgs: seq<Pkg>, name: string) returns (r: Option<Pkg>)
    ensures r == None <==> !Named(pkgs, name)
    ensures r != None ==> r.value in pkgs && r.value.name == name
  {
    for i := 0 to |pkgs|
      invariant forall j :: 0 <= j < i ==> pkgs[j].name != name
    {
      if pkgs[i].name == name {
        return Some(pkgs[i]);
      }
    }
    r := None;
  }

  // ---------- alpm_checkdeps ----------

  /** What checkdeps looks at: the installed packages, those to remove and to install, and settings. */
  datatype Change = Change(local: seq<Pkg>, rem: seq<Pkg>, upgrade: seq<Pkg>, assumed: seq<Depend>, nodepversion: bool)

  datatype Missing = Missing(target: string, depend: Depend, causing: Option<string>)

  predicate Touched(c: Change, p: Pkg) {
    Named(c.rem, p.name) || Named(c.upgrade, p.name)
  }

  function Select(c: Change, pkgs: seq<Pkg>, touched: bool): (r: seq<Pkg>) {
    if pkgs == [] then []
    else
      var n := |pkgs| - 1;
      Select(c, pkgs[..n], touched) + (if Touched(c, pkgs[n]) == touched then [pkgs[n]] else [])
  }

  /** dblist: the installed packages that stay as they are. */
  function Kept(c: Change): (r: seq<Pkg>) { Select(c, c.local, false) }
  /** modified: the installed packages that go or are replaced. */
  function Modified(c: Change): (r: seq<Pkg>) { Select(c, c.local, true) }

  /** The dependency as compared: without its version under NODEPVERSION. */
  function Compared(nodepversion: bool, d: Depend): (r: Depend) {
    if nodepversion then d.(mod := ANY) else d
  }

  predicate SatisfiedAfter(c: Change, d: Depend) {
    SatisfiedBy(d, c.upgrade) || SatisfiedBy(d, Kept(c)) || Provided(d, c.assumed)
  }

  lemma {:induction false} SelectMembers(c: Change, pkgs: seq<Pkg>, touched: bool, p: Pkg)
    ensures p in Select(c, pkgs, touched) <==> p in pkgs && Touched(c, p) == touched
  {
    if pkgs != [] {
      var n := |pkgs| - 1;
      SelectMembers(c, pkgs[..n], touched, p);
      assert pkgs == pkgs[..n] + [pkgs[n]];
    }
  }

  /** The entry that one dependency of package p contributes: of an installed package (reverse) only if
      a package that goes was satisfying it. */
  function Complaint(c: Change, p: Pkg, d0: Depend, reverse: bool): (r: seq<Missing>) {
    var d := Compared(c.nodepversion, d0);
    if SatisfiedAfter(c, d) || (reverse && !SatisfiedBy(d, Modified(c))) then []
    else [Missing(p.name, d, if reverse then Some(FirstSatisfier(Modified(c), d)) else None)]
  }

  function FirstSatisfier(pkgs: seq<Pkg>, d: Depend): (name: string)
    requires SatisfiedBy(d, pkgs)
    ensures exists i :: 0 <= i < |pkgs| && pkgs[i].name == name && Satisfies(pkgs[i], d)
  {
    if Satisfies(pkgs[0], d) then pkgs[0].name
    else
      assert SatisfiedBy(d, pkgs[1..]) by {
        var i :| 0 <= i < |pkgs| && Satisfies(pkgs[i], d);
        assert pkgs[1..][i - 1] == pkgs[i];
      }
      FirstSatisfier(pkgs[1..], d)
  }

  function PkgComplaints(c: Change, p: Pkg, deps: seq<Depend>, reverse: bool): (r: seq<Missing>) {
    if deps == [] then []
    else var n := |deps| - 1; PkgComplaints(c, p, deps[..n], reverse) + Complaint(c, p, deps[n], reverse)
  }

  function Complaints(c: Change, pkgs: seq<Pkg>, reverse: bool): (r: seq<Missing>) {
    if pkgs == [] then []
    else
      var n := |pkgs| - 1;
      Complaints(c, pkgs[..n], reverse) + PkgComplaints(c, pkgs[n], pkgs[n].depends, reverse)
  }

  function BadDeps(c: Change, reversedeps: bool): (r: seq<Missing>) {
    Complaints(c, c.upgrade, false) + (if reversedeps then Complaints(c, Kept(c), true) else [])
  }

  method CheckPkg(c: Change, p: Pkg, dblist: seq<Pkg>, modified: seq<Pkg>, reverse: bool) returns (bad: seq<Missing>)
    requires dblist == Kept(c) && modified == Modified(c)
    ensures bad == PkgComplaints(c, p, p.depends, reverse)
  {
    bad := [];
    for j := 0 to |p.depends|
      invariant bad == PkgComplaints(c, p, p.depends[..j], reverse)
    {
      assert p.depends[..j + 1][..j] == p.depends[..j];
      var depend := Compared(c.nodepversion, p.depends[j]);
      var causing := FindSatisfier(modified, depend);
      if !reverse || causing != None {
        var inUpgrade := FindSatisfier(c.upgrade, depend);
        var inDb := FindSatisfier(dblist, depend);
        if inUpgrade == None && inDb == None && !Provided(depend, c.assumed) {
          if reverse { FirstIs(modified, depend, causing.value); }
          bad := bad + [Missing(p.name, depend, if reverse then Some(causing.value.name) else None)];
        }
      }
    }
    assert p.depends[..|p.depends|] == p.depends;
  }

  lemma {:induction false} FirstIs(pkgs: seq<Pkg>, d: Depend, p: Pkg)
    requires IsFirstSatisfier(pkgs, d, p)
    ensures SatisfiedBy(d, pkgs) && FirstSatisfier(pkgs, d) == p.name
  {
    var i :| 0 <= i < |pkgs| && pkgs[i] == p && forall j :: 0 <= j < i ==> !Satisfies(pkgs[j], d);
    if i > 0 {
      assert pkgs[1..][i - 1] == p && forall j :: 0 <= j < i - 1 ==> !Satisfies(pkgs[1..][j], d);
      FirstIs(pkgs[1..], d, p);
    }
  }

  method CheckList(c: Change, pkgs: seq<Pkg>, dblist: seq<Pkg>, modified: seq<Pkg>, reverse: bool)
    returns (bad: seq<Missing>)
    requires dblist == Kept(c) && modified == Modified(c)
    ensures bad == Complaints(c, pkgs, reverse)
  {
    bad := [];
    for i := 0 to |pkgs|
      invariant bad == Complaints(c, pkgs[..i], reverse)
    {
      assert pkgs[..i + 1][..i] == pkgs[..i];
      var more := CheckPkg(c, pkgs[i], dblist, modified, reverse);
      bad := bad + more;
    }
    assert pkgs[..|pkgs|] == pkgs;
  }

  method CheckDeps(c: Change, reversedeps: bool) returns (baddeps: seq<Missing>)
    ensures baddeps == BadDeps(c, reversedeps)
  {
    var dblist, modified := [], [];
    for i := 0 to |c.local|
      invariant dblist == Select(c, c.local[..i], false) && modified == Select(c, c.local[..i], true)
    {
      assert c.local[..i + 1][..i] == c.local[..i];
      var pkg := c.local[i];
      if Named(c.rem, pkg.name) || Named(c.upgrade, pkg.name) {
        modified := modified + [pkg];
      } else {
        dblist := dblist + [pkg];
      }
    }
    assert c.local[..|c.local|] == c.local;
    baddeps := CheckList(c, c.upgrade, dblist, modified, false);
    if reversedeps {
      var more := CheckList(c, dblist, dblist, modified, true);
      baddeps := baddeps + more;
    }
  }

  // ---------- what an empty answer means ----------

  /** Every dependency of a package to install holds afterwards, and every dependency of an untouched
      package that held before still does. */
  ghost predicate KeepsDependencies(c: Change) {
    && (forall p, d :: p in c.upgrade && d in p.depends ==> SatisfiedAfter(c, Compared(c.nodepversion, d)))
    && (forall p, d ::
          (p in c.local && !Touched(c, p) && d in p.depends && SatisfiedBy(Compared(c.nodepversion, d), c.local))
          ==> SatisfiedAfter(c, Compared(c.nodepversion, d)))
  }

  /** None of these dependencies of p is complained about. */
  ghost predicate AllFine(c: Change, p: Pkg, deps: seq<Depend>, reverse: bool) {
    forall d :: d in deps ==> Complaint(c, p, d, reverse) == []
  }

  lemma {:induction false} NoPkgComplaints(c: Change, p: Pkg, deps: seq<Depend>, reverse: bool)
    ensures PkgComplaints(c, p, deps, reverse) == [] <==> AllFine(c, p, deps, reverse)
  {
    if deps != [] {
      var n := |deps| - 1;
      NoPkgComplaints(c, p, deps[..n], reverse);
      OneMoreFine(c, p, deps, reverse);
    }
  }

  lemma OneMoreFine(c: Change, p: Pkg, deps: seq<Depend>, reverse: bool)
    requires deps != []
    ensures var n := |deps| - 1; AllFine(c, p, deps, reverse) <==>
      AllFine(c, p, deps[..n], reverse) && Complaint(c, p, deps[n], reverse) == []
  {
    var n := |deps| - 1;
    assert deps == deps[..n] + [deps[n]];
  }

  lemma {:induction false} NoComplaintsFine(c: Change, pkgs: seq<Pkg>, reverse: bool, k: nat)
    requires Complaints(c, pkgs, reverse) == [] && k < |pkgs|
    ensures PkgComplaints(c, pkgs[k], pkgs[k].depends, reverse) == []
  {
    if k < |pkgs| - 1 { NoComplaintsFine(c, pkgs[..|pkgs| - 1], reverse, k); }
  }

  lemma {:induction false} FineNoComplaints(c: Change, pkgs: seq<Pkg>, reverse: bool)
    requires forall k :: 0 <= k < |pkgs| ==> PkgComplaints(c, pkgs[k], pkgs[k].depends, reverse) == []
    ensures Complaints(c, pkgs, reverse) == []
  {
    if pkgs != [] { FineNoComplaints(c, pkgs[..|pkgs| - 1], reverse); }
  }

  lemma NoComplaints(c: Change, pkgs: seq<Pkg>, reverse: bool)
    ensures Complaints(c, pkgs, reverse) == [] <==> forall p :: p in pkgs ==> AllFine(c, p, p.depends, reverse)
  {
    forall k | 0 <= k < |pkgs|
      ensures PkgComplaints(c, pkgs[k], pkgs[k].depends, reverse) == [] <==>
        AllFine(c, pkgs[k], pkgs[k].depends, reverse)
    {
      NoPkgComplaints(c, pkgs[k], pkgs[k].depends, reverse);
    }
    if Complaints(c, pkgs, reverse) == [] {
      forall k | 0 <= k < |pkgs| ensures PkgComplaints(c, pkgs[k], pkgs[k].depends, reverse) == [] {
        NoComplaintsFine(c, pkgs, reverse, k);
      }
    } else if forall p :: p in pkgs ==> AllFine(c, p, p.depends, reverse) {
      FineNoComplaints(c, pkgs, reverse);
    }
  }

  lemma SplitSatisfied(c: Change, d: Depend)
    ensures SatisfiedBy(d, c.local) <==> SatisfiedBy(d, Kept(c)) || SatisfiedBy(d, Modified(c))
  {
    forall i | 0 <= i < |c.local| && Satisfies(c.local[i], d)
      ensures SatisfiedBy(d, Kept(c)) || SatisfiedBy(d, Modified(c))
    {
      SelectMembers(c, c.local, Touched(c, c.local[i]), c.local[i]);
      assert c.local[i] in Select(c, c.local, Touched(c, c.local[i]));
    }
    forall touched: bool, i | 0 <= i < |Select(c, c.local, touched)| && Satisfies(Select(c, c.local, touched)[i], d)
      ensures SatisfiedBy(d, c.local)
    {
      SelectMembers(c, c.local, touched, Select(c, c.local, touched)[i]);
    }
  }

  /** The dependencies of a package to install are met. */
  ghost predicate InstallFine(c: Change, p: Pkg) {
    forall d :: d in p.depends ==> SatisfiedAfter(c, Compared(c.nodepversion, d))
  }

  /** The dependencies of an installed package that were met still are. */
  ghost predicate KeptFine(c: Change, p: Pkg) {
    forall d :: d in p.depends && SatisfiedBy(Compared(c.nodepversion, d), c.local) ==>
      SatisfiedAfter(c, Compared(c.nodepversion, d))
  }

  lemma FineForward(c: Change, p: Pkg)
    ensures AllFine(c, p, p.depends, false) <==> InstallFine(c, p)
  {}

  lemma FineReverse(c: Change, p: Pkg)
    ensures AllFine(c, p, p.depends, true) <==> KeptFine(c, p)
  {
    forall d
      ensures Complaint(c, p, d, true) == [] <==>
        (SatisfiedBy(Compared(c.nodepversion, d), c.local) ==> SatisfiedAfter(c, Compared(c.nodepversion, d)))
    {
      SplitSatisfied(c, Compared(c.nodepversion, d));
    }
  }

  lemma FineIsKept(c: Change)
    ensures KeepsDependencies(c) <==>
      (forall p :: p in c.upgrade ==> InstallFine(c, p))
        && (forall p :: p in c.local && !Touched(c, p) ==> KeptFine(c, p))
  {}

  /** alpm_checkdeps with reversedeps answers nothing exactly when no dependency breaks. */
  lemma CheckDepsExact(c: Change)
    ensures BadDeps(c, true) == [] <==> KeepsDependencies(c)
  {
    NoComplaints(c, c.upgrade, false);
    NoComplaints(c, Kept(c), true);
    assert BadDeps(c, true) == [] <==> Complaints(c, c.upgrade, false) == [] && Complaints(c, Kept(c), true) == [];
    forall p: Pkg ensures AllFine(c, p, p.depends, false) <==> InstallFine(c, p) { FineForward(c, p); }
    forall p: Pkg ensures AllFine(c, p, p.depends, true) <==> KeptFine(c, p) { FineReverse(c, p); }
    forall p ensures p in Kept(c) <==> p in c.local && !Touched(c, p) { SelectMembers(c, c.local, false, p); }
    FineIsKept(c);
  }

  // ---------- what each complaint says ----------

  /** Nothing that is there after the change meets the dependency. */
  ghost predicate Unmet(c: Change, d: Depend) {
    && (forall q :: q in c.upgrade ==> !Satisfies(q, d))
    && (forall q :: q in c.local && !Named(c.rem, q.name) && !Named(c.upgrade, q.name) ==> !Satisfies(q, d))
    && (forall a :: a in c.assumed ==> !Provides(a, d))
  }

  /** The complaint m is about dependency d0 of package p, which is to be installed or stays. */
  ghost predicate IsAbout(c: Change, m: Missing, p: Pkg, d0: Depend, reverse: bool) {
    && m.target == p.name && m.depend == (if c.nodepversion then d0.(mod := ANY) else d0) && Unmet(c, m.depend)
    && if reverse then exists q :: IsFirstSatisfier(Modified(c), m.depend, q) && m.causing == Some(q.name)
       else m.causing == None
  }

  ghost predicate Stays(c: Change, p: Pkg) {
    p in c.local && !Named(c.rem, p.name) && !Named(c.upgrade, p.name)
  }

  lemma UnmetExactly(c: Change, d: Depend)
    ensures Unmet(c, d) <==> !SatisfiedAfter(c, d)
  {
    forall p ensures p in Kept(c) <==> Stays(c, p) { SelectMembers(c, c.local, false, p); }
    SatisfiedIn(d, c.upgrade);
    SatisfiedIn(d, Kept(c));
    assert Provided(d, c.assumed) <==> exists a :: a in c.assumed && Provides(a, d);
  }

  lemma SatisfiedIn(d: Depend, pkgs: seq<Pkg>)
    ensures SatisfiedBy(d, pkgs) <==> exists q :: q in pkgs && Satisfies(q, d)
  {}

  lemma {:induction false} SomeFirst(pkgs: seq<Pkg>, d: Depend) returns (q: Pkg)
    requires SatisfiedBy(d, pkgs)
    ensures IsFirstSatisfier(pkgs, d, q)
  {
    if Satisfies(pkgs[0], d) {
      q := pkgs[0];
    } else {
      var i :| 0 <= i < |pkgs| && Satisfies(pkgs[i], d);
      assert pkgs[1..][i - 1] == pkgs[i];
      q := SomeFirst(pkgs[1..], d);
      var k :| 0 <= k < |pkgs[1..]| && pkgs[1..][k] == q && forall j :: 0 <= j < k ==> !Satisfies(pkgs[1..][j], d);
      assert pkgs[k + 1] == q;
      forall j | 0 <= j < k + 1 ensures !Satisfies(pkgs[j], d) {
        if j > 0 { assert pkgs[1..][j - 1] == pkgs[j]; }
      }
    }
  }

  lemma ComplaintIs(c: Change, p: Pkg, d: Depend, reverse: bool, m: Missing)
    ensures m in Complaint(c, p, d, reverse) <==> IsAbout(c, m, p, d, reverse)
  {
    UnmetExactly(c, Compared(c.nodepversion, d));
    if reverse {
      forall q | IsFirstSatisfier(Modified(c), Compared(c.nodepversion, d), q)
        ensures SatisfiedBy(Compared(c.nodepversion, d), Modified(c))
                && FirstSatisfier(Modified(c), Compared(c.nodepversion, d)) == q.name
      {
        FirstIs(Modified(c), Compared(c.nodepversion, d), q);
      }
      if SatisfiedBy(Compared(c.nodepversion, d), Modified(c)) {
        var q := SomeFirst(Modified(c), Compared(c.nodepversion, d));
      }
    }
  }

  lemma {:induction false} InPkgComplaints(c: Change, p: Pkg, deps: seq<Depend>, reverse: bool, m: Missing)
    ensures m in PkgComplaints(c, p, deps, reverse) <==> exists d :: d in deps && IsAbout(c, m, p, d, reverse)
  {
    if deps != [] {
      var n := |deps| - 1;
      InPkgComplaints(c, p, deps[..n], reverse, m);
      ComplaintIs(c, p, deps[n], reverse, m);
      assert deps == deps[..n] + [deps[n]];
    }
  }

  lemma {:induction false} InComplaints(c: Change, pkgs: seq<Pkg>, reverse: bool, m: Missing)
    ensures m in Complaints(c, pkgs, reverse) <==>
      exists p, d :: p in pkgs && d in p.depends && IsAbout(c, m, p, d, reverse)
  {
    if pkgs != [] {
      var n := |pkgs| - 1;
      InComplaints(c, pkgs[..n], reverse, m);
      InPkgComplaints(c, pkgs[n], pkgs[n].depends, reverse, m);
      assert pkgs == pkgs[..n] + [pkgs[n]];
    }
  }

  /** The answer holds exactly the dependencies that nothing meets afterwards: all of those of packages to install,
      and those of packages that stay if a package that goes met them, which is named. */
  lemma ComplaintsExactly(c: Change, reversedeps: bool, m: Missing)
    ensures m in BadDeps(c, reversedeps) <==>
      || (exists p, d :: p in c.upgrade && d in p.depends && IsAbout(c, m, p, d, false))
      || (reversedeps && exists p, d :: Stays(c, p) && d in p.depends && IsAbout(c, m, p, d, true))
  {
    InComplaints(c, c.upgrade, false, m);
    InComplaints(c, Kept(c), true, m);
    forall p ensures p in Kept(c) <==> Stays(c, p) { SelectMembers(c, c.local, false, p); }
  }
}
