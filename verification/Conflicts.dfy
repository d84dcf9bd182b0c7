/** Conflicts between packages (lib/libalpm/conflict.c). */
module Conflicts {
  import opened Packages
  import opened Deps
  import opened PkgDiff

  datatype Conflict = Conflict(package1: Pkg, package2: Pkg, reason: Depend)

  /** a declares a conflict that b matches; a package never conflicts with one of its own name. */
  predicate ConflictsWith(a: Pkg, b: Pkg) {
    a.name != b.name && exists i :: 0 <= i < |a.conflicts| && Satisfies(b, a.conflicts[i])
  }

  /** conflict_isin */
  predicate IsIn(name1: string, name2: string, list: seq<Conflict>) {
    exists i :: 0 <= i < |list| && list[i].package1.name == name1 && list[i].package2.name == name2
  }

  /** Each pair of names is listed once. */
  ghost predicate OncePerPair(list: seq<Conflict>) {
    forall i, j :: 0 <= i < j < |list| ==>
      !(list[i].package1.name == list[j].package1.name && list[i].package2.name == list[j].package2.name)
  }

  /** The entry is a real conflict between the two lists, first list first unless reversed. */
  ghost predicate Genuine(c: Conflict, list1: seq<Pkg>, list2: seq<Pkg>, reversed: bool) {
    var a, b := if reversed then c.package2 else c.package1, if reversed then c.package1 else c.package2;
    a in list1 && b in list2 && a.name != b.name && c.reason in a.conflicts && Satisfies(b, c.reason)
  }

  predicate Listed(a: Pkg, b: Pkg, reversed: bool, list: seq<Conflict>) {
    if reversed then IsIn(b.name, a.name, list) else IsIn(a.name, b.name, list)
  }

  method AddConflict(list: seq<Conflict>, c: Conflict) returns (r: seq<Conflict>)
    ensures list <= r && (OncePerPair(list) ==> OncePerPair(r))
    ensures IsIn(c.package1.name, c.package2.name, r)
    ensures r == list || r == list + [c]
  {
    if IsIn(c.package1.name, c.package2.name, list) {
      r := list;
    } else {
      r := list + [c];
      assert r[|list|] == c;
    }
  }

  /** The innermost loop: one declared conflict against the second list. */
  method CheckOne(pkg1: Pkg, reason: Depend, list1: seq<Pkg>, list2: seq<Pkg>, bad0: seq<Conflict>, reversed: bool)
    returns (bad: seq<Conflict>)
    requires pkg1 in list1 && reason in pkg1.conflicts && OncePerPair(bad0)
    ensures bad0 <= bad && OncePerPair(bad)
    ensures forall k :: |bad0| <= k < |bad| ==> Genuine(bad[k], list1, list2, reversed)
    ensures forall p :: p in list2 && p.name != pkg1.name && Satisfies(p, reason) ==> Listed(pkg1, p, reversed, bad)
  {
    bad := bad0;
    for k := 0 to |list2|
      invariant bad0 <= bad && OncePerPair(bad)
      invariant forall j :: |bad0| <= j < |bad| ==> Genuine(bad[j], list1, list2, reversed)
      invariant forall j :: 0 <= j < k && list2[j].name != pkg1.name && Satisfies(list2[j], reason) ==>
        Listed(pkg1, list2[j], reversed, bad)
    {
      var pkg2 := list2[k];
      if pkg1.name == pkg2.name {
        continue;
      }
      if Satisfies(pkg2, reason) {
        ghost var before := bad;
        bad := AddConflict(bad, if reversed then Conflict(pkg2, pkg1, reason) else Conflict(pkg1, pkg2, reason));
        StillListed(before, bad);
      }
    }
  }

  lemma StillListed(list: seq<Conflict>, list': seq<Conflict>)
    requires list <= list'
    ensures forall n1, n2 :: IsIn(n1, n2, list) ==> IsIn(n1, n2, list')
  {
    forall n1, n2 | IsIn(n1, n2, list) ensures IsIn(n1, n2, list') {
      var i :| 0 <= i < |list| && list[i].package1.name == n1 && list[i].package2.name == n2;
      assert list'[i] == list[i];
    }
  }

  /** All conflicts that one package declares. */
  method CheckPkg(pkg1: Pkg, list1: seq<Pkg>, list2: seq<Pkg>, bad0: seq<Conflict>, reversed: bool)
    returns (bad: seq<Conflict>)
    requires pkg1 in list1 && OncePerPair(bad0)
    ensures bad0 <= bad && OncePerPair(bad)
    ensures forall k :: |bad0| <= k < |bad| ==> Genuine(bad[k], list1, list2, reversed)
    ensures forall p :: p in list2 && ConflictsWith(pkg1, p) ==> Listed(pkg1, p, reversed, bad)
  {
    bad := bad0;
    for i := 0 to |pkg1.conflicts|
      invariant bad0 <= bad && OncePerPair(bad)
      invariant forall j :: |bad0| <= j < |bad| ==> Genuine(bad[j], list1, list2, reversed)
      invariant forall p, j :: p in list2 && 0 <= j < i && p.name != pkg1.name && Satisfies(p, pkg1.conflicts[j])
                  ==> Listed(pkg1, p, reversed, bad)
    {
      ghost var before := bad;
      bad := CheckOne(pkg1, pkg1.conflicts[i], list1, list2, bad, reversed);
      StillListed(before, bad);
    }
  }

  /** check_conflict: finds every conflict declared in the first list against the second, and no other. */
  method CheckConflict(list1: seq<Pkg>, list2: seq<Pkg>, bad0: seq<Conflict>, reversed: bool)
    returns (bad: seq<Conflict>)
    requires OncePerPair(bad0)
    ensures bad0 <= bad && OncePerPair(bad)
    ensures forall k :: |bad0| <= k < |bad| ==> Genuine(bad[k], list1, list2, reversed)
    ensures forall a, b :: a in list1 && b in list2 && ConflictsWith(a, b) ==> Listed(a, b, reversed, bad)
  {
    bad := bad0;
    for i := 0 to |list1|
      invariant bad0 <= bad && OncePerPair(bad)
      invariant forall j :: |bad0| <= j < |bad| ==> Genuine(bad[j], list1, list2, reversed)
      invariant forall j, b :: 0 <= j < i && b in list2 && ConflictsWith(list1[j], b) ==>
        Listed(list1[j], b, reversed, bad)
    {
      ghost var before := bad;
      bad := CheckPkg(list1[i], list1, list2, bad, reversed);
      StillListed(before, bad);
    }
  }

  method InnerConflicts(packages: seq<Pkg>) returns (bad: seq<Conflict>)
    ensures OncePerPair(bad)
    ensures forall k :: 0 <= k < |bad| ==> Genuine(bad[k], packages, packages, false)
    ensures forall a, b :: a in packages && b in packages && ConflictsWith(a, b) ==> IsIn(a.name, b.name, bad)
  {
    bad := CheckConflict(packages, packages, [], false);
  }

  /** a is to be installed, b is installed and not replaced, and they conflict one way or the other. */
  ghost predicate Between(a: Pkg, b: Pkg, local: seq<Pkg>, packages: seq<Pkg>) {
    a in packages && b in local && !Named(packages, b.name) && (ConflictsWith(a, b) || ConflictsWith(b, a))
  }

  /** Conflicts of a package to install with an installed one that it does not replace, either way round;
      the package to install always comes first. */
  method OuterConflicts(local: seq<Pkg>, packages: seq<Pkg>) returns (bad: seq<Conflict>)
    requires UniquelyNamed(local)
    ensures OncePerPair(bad)
    ensures forall k :: 0 <= k < |bad| ==> Between(bad[k].package1, bad[k].package2, local, packages)
    ensures forall a, b :: Between(a, b, local, packages) ==> IsIn(a.name, b.name, bad)
  {
    var dblist := DropNamed(local, packages);
    var first := CheckConflict(packages, dblist, [], false);
    bad := CheckConflict(dblist, packages, first, true);
    StillListed(first, bad);
    forall k | 0 <= k < |bad| ensures Between(bad[k].package1, bad[k].package2, local, packages) {
      if k < |first| { assert bad[k] == first[k] && Genuine(first[k], packages, dblist, false); }
      else { assert Genuine(bad[k], dblist, packages, true); }
    }
  }
}
