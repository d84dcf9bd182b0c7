/** What an interrupted transaction leaves behind, thanks to the order of its steps. */
module TransStop {
  import opened Packages
  import opened Deps
  import opened Conflicts
  import opened DepOrder
  import opened SortByDeps
  import opened TransSpec
  import opened TransHealth

  /** A package is removed before what it depends on. */
  ghost predicate DependentsFirst(rem: seq<Pkg>) {
    forall i, j :: 0 <= i < j < |rem| ==> !DependsOn(rem[j], rem[i])
  }

  /** A package is installed after what it depends on. */
  ghost predicate DependsFirst(add: seq<Pkg>) {
    forall i, q :: 0 <= i < |add| && q in add && q != add[i] && DependsOn(add[i], q) ==> q in add[..i]
  }

  lemma FollowsDirectly(U: seq<Pkg>, order: seq<Pkg>)
    requires FollowsAll(U, order, order) && Subset(order, U)
    ensures DependsFirst(order)
  {
    forall i, q | 0 <= i < |order| && q in order && q != order[i] && DependsOn(order[i], q) ensures q in order[..i] {
      assert IsPath(U, [order[i], q]);
      assert Reaches(U, order[i], q);
    }
  }

  lemma ReversedOrder(order: seq<Pkg>, r: seq<Pkg>)
    requires DependsFirst(order) && UniquelyNamed(order)
    requires |r| == |order| && forall k :: 0 <= k < |r| ==> r[k] == order[|order| - 1 - k]
    ensures DependentsFirst(r)
  {
    forall i, j | 0 <= i < j < |r| ensures !DependsOn(r[j], r[i]) {
      var i', j' := |order| - 1 - i, |order| - 1 - j;
      assert order[i'] in order && order[i'].name != order[j'].name;
      assert order[i'] !in order[..j'];
    }
  }

  // ---------- an interrupted removal ----------

  ghost predicate Taken(rem: seq<Pkg>, db: Cache) {
    forall p :: p in rem ==> p.name in db && db[p.name] == p
  }

  lemma StillMet(db: Cache, t: Trans, assumed: seq<Depend>, m: nat, n: string, d: Depend)
    requires IsCache(db) && t.add == [] && !t.flags.nodepversion && PlanKeeps(db, t, assumed)
    requires Taken(t.remove, db) && DependentsFirst(t.remove) && m <= |t.remove|
    requires n in db && !Named(t.remove[..m], n) && d in db[n].depends && SatIn(db, d)
    ensures Provided(d, assumed) || exists q :: q in db && !Named(t.remove[..m], q) && Satisfies(db[q], d)
  {
    assert Compared(t.flags.nodepversion, d) == d;
    assert forall k :: 0 <= k < m ==> t.remove[..m][k] == t.remove[k];
    if Named(t.remove, n) {
      var j :| 0 <= j < |t.remove| && t.remove[j].name == n;
      var q :| q in db && Satisfies(db[q], d);
      assert t.remove[j] in t.remove && m <= j;
      forall i | 0 <= i < m ensures t.remove[..m][i].name != q {
        assert t.remove[i] in t.remove && !DependsOn(t.remove[j], t.remove[i]);
      }
    } else {
      assert SatPlanned(db, t, assumed, d);
      if !Provided(d, assumed) {
        var q :| q in db && Untouched(t, q) && Satisfies(db[q], d);
      }
    }
  }

  /** Without dependency cycles, a checked removal may be interrupted anywhere: a healthy system stays
      healthy. */
  lemma RemovalStopsHealthy(db: Cache, t: Trans, assumed: seq<Depend>, m: nat)
    requires IsCache(db) && t.add == [] && !t.flags.nodepversion && PlanKeeps(db, t, assumed)
    requires Taken(t.remove, db) && DependentsFirst(t.remove) && m <= |t.remove| && Healthy(db, assumed)
    ensures Healthy(Removed(db, t.remove[..m]), assumed)
  {
    var db1 := Removed(db, t.remove[..m]);
    forall n ensures Lookup(db1, n) == if Named(t.remove[..m], n) then None else Lookup(db, n) {
      RemovedLookup(db, t.remove[..m], n);
    }
    assert forall n :: n in db1 <==> Lookup(db1, n) != None;
    forall n, d | n in db1 && d in db1[n].depends ensures SatIn(db1, d) || Provided(d, assumed) {
      if !Provided(d, assumed) {
        StillMet(db, t, assumed, m, n, d);
        var q :| q in db && !Named(t.remove[..m], q) && Satisfies(db[q], d);
        assert Lookup(db1, q) == Lookup(db, q);
      }
    }
    forall a, b | a in db1 && b in db1 ensures !ConflictsWith(db1[a], db1[b]) {
      assert Lookup(db1, a) == Lookup(db, a) && Lookup(db1, b) == Lookup(db, b);
    }
  }

  // ---------- an interrupted installation ----------

  /** The dependencies of what comes first are planned for by what comes first. */
  lemma PlannedSoFar(db: Cache, t: Trans, assumed: seq<Depend>, n: nat, k: nat, d: Depend)
    requires IsCache(db) && !t.flags.nodepversion && PlanKeeps(db, t, assumed)
    requires DependsFirst(t.add) && k < n <= |t.add| && d in t.add[k].depends
    ensures SatPlanned(db, t.(add := t.add[..n]), assumed, d)
  {
    var so := t.(add := t.add[..n]);
    assert t.add[k] in t.add && Compared(t.flags.nodepversion, d) == d;
    if SatisfiedBy(d, t.add) {
      var g :| 0 <= g < |t.add| && Satisfies(t.add[g], d);
      var e :| 0 <= e < |t.add[k].depends| && t.add[k].depends[e] == d;
      assert DependsOn(t.add[k], t.add[g]) && t.add[g] in t.add;
      assert t.add[g] == so.add[k] || t.add[g] in t.add[..k];
      assert t.add[g] in so.add;
      assert SatisfiedBy(d, so.add);
    } else if !Provided(d, assumed) {
      var q :| q in db && Untouched(t, q) && Satisfies(db[q], d);
      assert forall i :: 0 <= i < n ==> so.add[i] == t.add[i];
      assert Untouched(so, q);
    }
  }

  /** Without dependency cycles, whenever an installation stops, everything installed so far has its
      dependencies. */
  lemma InstalledSoFarIsMet(db: Cache, t: Trans, assumed: seq<Depend>, n: nat, k: nat, d: Depend)
    requires IsCache(db) && !t.flags.nodepversion && PlanKeeps(db, t, assumed)
    requires UniquelyNamed(t.add) && DependsFirst(t.add) && k < n <= |t.add| && d in t.add[k].depends
    ensures var db1 := Installed(Removed(db, t.remove), t.add[..n], t.flags);
      SatIn(db1, d) || Provided(d, assumed)
  {
    var so := t.(add := t.add[..n]);
    PlannedSoFar(db, t, assumed, n, k, d);
    assert so.add[k] == t.add[k] && so.add[k] in so.add;
    PlannedIsMet(db, so, assumed, d);
  }

  /** Nothing is removed, and nothing that is installed is replaced. */
  ghost predicate OnlyAdds(db: Cache, t: Trans) {
    t.remove == [] && forall p :: p in t.add ==> p.name !in db
  }

  lemma PrefixOk(db: Cache, t: Trans, assumed: seq<Depend>, n: nat)
    requires IsCache(db) && !t.flags.nodepversion && PlanKeeps(db, t, assumed) && PlanAgrees(db, t)
    requires OnlyAdds(db, t) && DependsFirst(t.add) && n <= |t.add|
    ensures var so := t.(add := t.add[..n]); PlanKeeps(db, so, assumed) && PlanAgrees(db, so)
  {
    var so := t.(add := t.add[..n]);
    assert forall p :: p in so.add ==> p in t.add;
    forall q | q in db ensures Untouched(so, q) && Untouched(t, q) {
      assert forall k :: 0 <= k < |t.add| ==> t.add[k] in t.add;
      assert forall k :: 0 <= k < n ==> so.add[k] == t.add[k];
    }
    forall p, d | p in so.add && d in p.depends
      ensures SatPlanned(db, so, assumed, Compared(so.flags.nodepversion, d))
    {
      var k :| 0 <= k < n && so.add[k] == p;
      PlannedSoFar(db, t, assumed, n, k, d);
    }
  }

  /** Without dependency cycles, a checked addition may stop anywhere: a healthy system stays healthy. */
  lemma AdditionStopsHealthy(db: Cache, t: Trans, assumed: seq<Depend>, n: nat)
    requires IsCache(db) && !t.flags.nodepversion && PlanKeeps(db, t, assumed) && PlanAgrees(db, t)
    requires OnlyAdds(db, t) && UniquelyNamed(t.add) && DependsFirst(t.add) && n <= |t.add| && Healthy(db, assumed)
    ensures Healthy(Installed(db, t.add[..n], t.flags), assumed)
  {
    var so := t.(add := t.add[..n]);
    PrefixOk(db, t, assumed, n);
    assert forall i, j :: 0 <= i < j < n ==> so.add[i] == t.add[i] && so.add[j] == t.add[j];
    StaysHealthy(db, so, assumed);
    assert Removed(db, []) == db;
  }

  const X := Depend("x", None, None, ANY)
  const USER := Pkg("u", "1", "u", Explicit, [X], [], [])
  const FORMER := Pkg("x", "1", "x", AsDependency, [], [], [])
  const LATTER := Pkg("y", "1", "y", AsDependency, [], [X], [X])
  const PLAIN := Flags(false, false, false, false, false, false, false, false, false, false, false, false, false)
  const DB: Cache := map["u" := USER, "x" := FORMER]
  const SWAP := Trans(PLAIN, Prepared, [LATTER], [FORMER], map[])

  lemma SwapIsChecked()
    ensures Healthy(DB, []) && PlanKeeps(DB, SWAP, []) && PlanAgrees(DB, SWAP)
  {
    assert LATTER.provisions[0] == X && SWAP.add[0] == LATTER && SWAP.remove[0] == FORMER;
    assert Satisfies(LATTER, X) by { assert Provides(LATTER.provisions[0], X); }
    assert SatisfiedBy(X, SWAP.add);
    assert "x" in DB && Satisfies(DB["x"], X);
    assert forall n :: n in DB && Untouched(SWAP, n) ==> n == "u";
  }

  /** A package that is left alone has no such guarantee: stopped between the removal of a package and the
      installation of the one that takes over, its dependency is missing for a while. */
  lemma ReplacementStopsUnhealthy()
    ensures Healthy(DB, []) && PlanKeeps(DB, SWAP, []) && PlanAgrees(DB, SWAP)
    ensures DependsFirst(SWAP.add) && DependentsFirst(SWAP.remove)
    ensures !Healthy(Removed(DB, SWAP.remove), []) && Healthy(Outcome(DB, SWAP), [])
  {
    SwapIsChecked();
    StaysHealthy(DB, SWAP, []);
    var db1 := Removed(DB, SWAP.remove);
    assert SWAP.remove[..|SWAP.remove| - 1] == [];
    assert Removed(DB, []) == DB;
    assert db1 == DB - {"x"};
    assert forall n :: n in db1 ==> n == "u";
    assert !Satisfies(USER, X);
    assert USER.depends[0] == X && "u" in db1 && X in db1["u"].depends;
  }

  // ---------- where stops and failures do harm ----------

  const A := Pkg("a", "1", "a", Explicit, [Depend("b", None, None, ANY)], [], [])
  const B := Pkg("b", "1", "b", Explicit, [Depend("a", None, None, ANY)], [], [])
  const RING: Cache := map["a" := A, "b" := B]
  const DROP := Trans(PLAIN, Prepared, [], [A, B], map[])

  lemma RingIsHealthy()
    ensures Healthy(RING, []) && Passes(RING, DROP, [])
  {
    assert A.depends == [Depend("b", None, None, ANY)] && B.depends == [Depend("a", None, None, ANY)];
    assert Satisfies(B, A.depends[0]) && Satisfies(A, B.depends[0]);
    assert "a" in RING && "b" in RING && RING["a"] == A && RING["b"] == B;
    assert forall n :: n in RING ==> n == "a" || n == "b";
    assert DROP.remove[0] == A && DROP.remove[1] == B;
    assert !ConflictsWith(A, B) && !ConflictsWith(B, A) && !ConflictsWith(A, A) && !ConflictsWith(B, B);
  }

  /** With a dependency cycle no order of removal helps: two packages that need each other cannot go one
      after the other, in either order, though the plan is sound. */
  lemma CycleStopsUnhealthy()
    ensures Healthy(RING, []) && Passes(RING, DROP, [])
    ensures !Healthy(Removed(RING, [A]), []) && !Healthy(Removed(RING, [B]), [])
    ensures !DependentsFirst([A, B]) && !DependentsFirst([B, A])
  {
    RingIsHealthy();
    assert Removed(RING, []) == RING;
    assert [A][..0] == [] && [B][..0] == [];
    var x, y := Removed(RING, [A]), Removed(RING, [B]);
    assert x == RING - {"a"} && y == RING - {"b"};
    assert (forall n :: n in x ==> n == "b") && (forall n :: n in y ==> n == "a");
    assert !Satisfies(B, B.depends[0]) && !Satisfies(A, A.depends[0]);
    assert "b" in x && x["b"] == B && B.depends[0] in x["b"].depends;
    assert "a" in y && y["a"] == A && A.depends[0] in y["a"].depends;
    assert DependsOn(A, B) && DependsOn(B, A);
    assert [A, B][0] == A && [A, B][1] == B && [B, A][0] == B && [B, A][1] == A;
  }

  const NEWER := FORMER.(version := "2")
  const UPGRADE := Trans(PLAIN, Prepared, [NEWER], [], map["x" := FORMER])

  /** An upgrade whose old version is gone and whose new version cannot be installed breaks the dependency of an
      untouched package, though the plan is sound and may be interrupted anywhere. */
  lemma FailureUnhealthy()
    ensures Healthy(DB, []) && Passes(DB, UPGRADE, [])
    ensures Healthy(Outcome(DB, UPGRADE), []) && Outcome(DB, Executed(UPGRADE, Stop(0, 0))) == DB
    ensures !Healthy(Outcome(DB, Executed(UPGRADE, Failure(0, Without))), [])
  {
    SwapIsChecked();
    UpgradeIsChecked();
    HealthyExactly(DB, UPGRADE, []);
    assert Removed(DB, []) == DB;
    var u := Executed(UPGRADE, Failure(0, Without));
    assert u.remove == [NEWER] && u.add == [] && [NEWER][..0] == [];
    var db1 := Outcome(DB, u);
    assert db1 == DB - {"x"};
    assert forall n :: n in db1 ==> n == "u";
    assert !Satisfies(USER, X);
    assert USER.depends[0] == X && "u" in db1 && X in db1["u"].depends;
  }

  lemma UpgradeIsChecked()
    ensures Passes(DB, UPGRADE, [])
  {
    assert UPGRADE.add[0] == NEWER && Satisfies(NEWER, X);
    assert SatisfiedBy(X, UPGRADE.add);
    assert forall n :: n in DB && Untouched(UPGRADE, n) ==> n == "u";
    assert forall d :: d in USER.depends ==> d == X;
  }
}
