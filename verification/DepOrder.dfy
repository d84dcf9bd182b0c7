/** What sorting by dependency promises: chains of dependencies, and lists that put a package after the
    packages it depends on. */
module DepOrder {
  import opened Packages
  import opened Deps

  // ---------- reachability ----------

  ghost predicate IsPath(U: seq<Pkg>, path: seq<Pkg>) {
    && path != []
    && (forall i :: 0 <= i < |path| ==> path[i] in U)
    && (forall i :: 0 < i < |path| ==> DependsOn(path[i - 1], path[i]))
  }

  /** There is a chain of dependencies within U from p to q. */
  ghost predicate Reaches(U: seq<Pkg>, p: Pkg, q: Pkg) {
    exists path :: IsPath(U, path) && path[0] == p && path[|path| - 1] == q
  }

  /** What the finishing order guarantees: a dependency comes first, unless it leads back. */
  ghost predicate OrderOk(U: seq<Pkg>, order: seq<Pkg>) {
    forall f, q :: 0 <= f < |order| && q in U && DependsOn(order[f], q) ==> q in order[..f] || Reaches(U, q, order[f])
  }

  /** The packages of `order` that are targets. */
  function Picked(targets: seq<Pkg>, order: seq<Pkg>): (r: seq<Pkg>) {
    if order == [] then []
    else
      var n := |order| - 1;
      Picked(targets, order[..n]) + (if order[n] in targets then [order[n]] else [])
  }

  // ---------- from the finishing order to the targets ----------

  lemma {:induction false} PickedMembers(targets: seq<Pkg>, order: seq<Pkg>, q: Pkg)
    ensures q in Picked(targets, order) <==> q in order && q in targets
  {
    if order != [] {
      var n := |order| - 1;
      PickedMembers(targets, order[..n], q);
      assert order == order[..n] + [order[n]];
    }
  }

  lemma {:induction false} PickedUnique(targets: seq<Pkg>, order: seq<Pkg>)
    requires UniquelyNamed(order)
    ensures UniquelyNamed(Picked(targets, order))
  {
    if order != [] {
      var n := |order| - 1;
      var r := Picked(targets, order[..n]);
      PickedUnique(targets, order[..n]);
      forall k | 0 <= k < |r| ensures r[k].name != order[n].name {
        PickedMembers(targets, order[..n], r[k]);
      }
    }
  }

  /** The targets listed before the i-th one are those that come before it in the whole order. */
  lemma {:induction false} PickedAt(targets: seq<Pkg>, order: seq<Pkg>, i: nat) returns (f: nat)
    requires i < |Picked(targets, order)|
    ensures f < |order| && order[f] == Picked(targets, order)[i]
    ensures Picked(targets, order[..f]) == Picked(targets, order)[..i]
  {
    var n := |order| - 1;
    var r := Picked(targets, order[..n]);
    if i < |r| {
      f := PickedAt(targets, order[..n], i);
      assert order[..n][..f] == order[..f];
    } else {
      f := n;
    }
  }

  /** A package follows the targets it depends on, except where the dependency leads back to it. */
  ghost predicate FollowsDepends(U: seq<Pkg>, targets: seq<Pkg>, r: seq<Pkg>) {
    forall i, q :: 0 <= i < |r| && q in targets && DependsOn(r[i], q) ==> q in r[..i] || Reaches(U, q, r[i])
  }

  ghost predicate Subset(D: seq<Pkg>, U: seq<Pkg>) {
    forall k :: 0 <= k < |D| ==> D[k] in U
  }

  lemma ReachesMore(D: seq<Pkg>, U: seq<Pkg>, p: Pkg, q: Pkg)
    requires Subset(D, U) && Reaches(D, p, q)
    ensures Reaches(U, p, q)
  {
    var path :| IsPath(D, path) && path[0] == p && path[|path| - 1] == q;
    assert IsPath(U, path);
  }

  lemma PickedFollows(D: seq<Pkg>, U: seq<Pkg>, targets: seq<Pkg>, order: seq<Pkg>)
    requires Subset(targets, D) && Subset(D, U) && OrderOk(D, order)
    ensures FollowsDepends(U, targets, Picked(targets, order))
  {
    var r := Picked(targets, order);
    forall i, q | 0 <= i < |r| && q in targets && DependsOn(r[i], q) ensures q in r[..i] || Reaches(U, q, r[i]) {
      var f := PickedAt(targets, order, i);
      if q in order[..f] {
        PickedMembers(targets, order[..f], q);
      } else {
        ReachesMore(D, U, q, r[i]);
      }
    }
  }

  // ---------- without cycles ----------

  /** The only cycles are packages that depend on themselves. */
  ghost predicate Acyclic(U: seq<Pkg>) {
    forall p, q :: Reaches(U, p, q) && Reaches(U, q, p) ==> p == q
  }

  ghost predicate Closed(D: seq<Pkg>, U: seq<Pkg>) {
    forall p, q :: p in D && q in U && DependsOn(p, q) ==> q in D
  }

  /** Along a chain of dependencies the order only goes back. */
  lemma {:induction false} PathGoesBack(D: seq<Pkg>, U: seq<Pkg>, order: seq<Pkg>, path: seq<Pkg>, f: nat)
    requires Subset(D, U) && Closed(D, U) && OrderOk(D, order) && Acyclic(U)
    requires IsPath(U, path) && f < |order| && path[0] == order[f] && path[0] in D
    ensures path[|path| - 1] == order[f] || path[|path| - 1] in order[..f]
    decreases |path|
  {
    if |path| > 1 {
      var p, q := path[0], path[1];
      assert DependsOn(p, q) && q in D;
      assert IsPath(U, path[1..]);
      if p == q {
        PathGoesBack(D, U, order, path[1..], f);
      } else {
        assert Reaches(U, p, q) by { assert IsPath(U, [p, q]); }
        if Reaches(D, q, p) { ReachesMore(D, U, q, p); }
        var g :| 0 <= g < f && order[..f][g] == q;
        PathGoesBack(D, U, order, path[1..], g);
      }
    }
  }

  /** Without cycles, a package follows every target it depends on, be it through other packages. */
  lemma AcyclicFollows(D: seq<Pkg>, U: seq<Pkg>, targets: seq<Pkg>, order: seq<Pkg>, i: nat, q: Pkg)
    requires Subset(D, U) && Closed(D, U) && OrderOk(D, order) && Acyclic(U) && Subset(order, D)
    requires i < |Picked(targets, order)| && q in targets && q != Picked(targets, order)[i]
    requires Reaches(U, Picked(targets, order)[i], q)
    ensures q in Picked(targets, order)[..i]
  {
    var f := PickedAt(targets, order, i);
    var path :| IsPath(U, path) && path[0] == order[f] && path[|path| - 1] == q;
    PathGoesBack(D, U, order, path, f);
    PickedMembers(targets, order[..f], q);
  }

  // ---------- permutations ----------

  lemma {:induction false} CountOnce(s: seq<Pkg>, p: Pkg)
    requires UniquelyNamed(s)
    ensures multiset(s)[p] == if p in s then 1 else 0
  {
    if s != [] {
      var n := |s| - 1;
      assert s == s[..n] + [s[n]];
      CountOnce(s[..n], p);
    }
  }

  lemma SameMembers(s: seq<Pkg>, t: seq<Pkg>)
    requires UniquelyNamed(s) && UniquelyNamed(t) && forall p :: p in s <==> p in t
    ensures multiset(s) == multiset(t)
  {
    forall p ensures multiset(s)[p] == multiset(t)[p] {
      CountOnce(s, p);
      CountOnce(t, p);
    }
  }
}
