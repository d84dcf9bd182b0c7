/** What a checked transaction keeps: no missing dependencies and no conflicts among installed packages. */
module TransHealth {
  import opened Packages
  import opened Deps
  import opened Conflicts
  import opened TransSpec
  import SyncPrepare

  ghost predicate SatIn(db: Cache, d: Depend) {
    exists n :: n in db && Satisfies(db[n], d)
  }

  /** Every dependency of an installed package is met, and no two installed packages conflict. */
  ghost predicate Healthy(db: Cache, assumed: seq<Depend>) {
    && (forall n, d :: n in db && d in db[n].depends ==> SatIn(db, d) || Provided(d, assumed))
    && (forall m, n :: m in db && n in db ==> !ConflictsWith(db[m], db[n]))
  }

  predicate Untouched(t: Trans, name: string) {
    !Named(t.remove, name) && !Named(t.add, name)
  }

  /** d is met once t is done. */
  ghost predicate SatPlanned(db: Cache, t: Trans, assumed: seq<Depend>, d: Depend) {
    || SatisfiedBy(d, t.add)
    || (exists n :: n in db && Untouched(t, n) && Satisfies(db[n], d))
    || Provided(d, assumed)
  }

  /** The plan meets the dependencies of what it installs, and breaks none of what it leaves alone. */
  ghost predicate PlanKeeps(db: Cache, t: Trans, assumed: seq<Depend>) {
    && (forall p, d :: p in t.add && d in p.depends ==> SatPlanned(db, t, assumed, Compared(t.flags.nodepversion, d)))
    && (forall n, d :: n in db && Untouched(t, n) && d in db[n].depends && SatIn(db, Compared(t.flags.nodepversion, d))
          ==> SatPlanned(db, t, assumed, Compared(t.flags.nodepversion, d)))
  }

  /** Nothing the plan installs conflicts with anything that is there afterwards. */
  ghost predicate PlanAgrees(db: Cache, t: Trans) {
    && (forall a, b :: a in t.add && b in t.add ==> !ConflictsWith(a, b))
    && (forall a, n :: a in t.add && n in db && Untouched(t, n) ==>
      !ConflictsWith(a, db[n]) && !ConflictsWith(db[n], a))
  }

  // ---------- from the checks on lists ----------

  /** `local` lists the packages of the cache. */
  ghost predicate Lists(local: seq<Pkg>, db: Cache) {
    UniquelyNamed(local) && forall p :: p in local <==> p.name in db && db[p.name] == p
  }

  function AsChange(local: seq<Pkg>, t: Trans, assumed: seq<Depend>): (c: Change) {
    Change(local, t.remove, t.add, assumed, t.flags.nodepversion)
  }

  lemma KeptIsUntouched(local: seq<Pkg>, db: Cache, t: Trans, assumed: seq<Depend>, d: Depend)
    requires Lists(local, db) && SatisfiedBy(d, Kept(AsChange(local, t, assumed)))
    ensures exists n :: n in db && Untouched(t, n) && Satisfies(db[n], d)
  {
    var c := AsChange(local, t, assumed);
    var i :| 0 <= i < |Kept(c)| && Satisfies(Kept(c)[i], d);
    var p := Kept(c)[i];
    SelectMembers(c, local, false, p);
    assert p.name in db && Untouched(t, p.name) && Satisfies(db[p.name], d);
  }

  lemma SatInLists(local: seq<Pkg>, db: Cache, d: Depend)
    requires Lists(local, db) && IsCache(db)
    ensures SatIn(db, d) <==> SatisfiedBy(d, local)
  {
    if SatIn(db, d) {
      var n :| n in db && Satisfies(db[n], d);
      assert db[n] in local;
      var i :| 0 <= i < |local| && local[i] == db[n];
    }
    if SatisfiedBy(d, local) {
      var i :| 0 <= i < |local| && Satisfies(local[i], d);
      assert local[i] in local;
    }
  }

  lemma PlannedIfAfter(local: seq<Pkg>, db: Cache, t: Trans, assumed: seq<Depend>, d: Depend)
    requires Lists(local, db) && SatisfiedAfter(AsChange(local, t, assumed), d)
    ensures SatPlanned(db, t, assumed, d)
  {
    var c := AsChange(local, t, assumed);
    if SatisfiedBy(d, Kept(c)) { KeptIsUntouched(local, db, t, assumed, d); }
  }

  lemma PlanKeepsIfChecked(local: seq<Pkg>, db: Cache, t: Trans, assumed: seq<Depend>)
    requires Lists(local, db) && IsCache(db) && KeepsDependencies(AsChange(local, t, assumed))
    ensures PlanKeeps(db, t, assumed)
  {
    var c := AsChange(local, t, assumed);
    forall p, d | p in t.add && d in p.depends ensures SatPlanned(db, t, assumed, Compared(t.flags.nodepversion, d)) {
      PlannedIfAfter(local, db, t, assumed, Compared(c.nodepversion, d));
    }
    forall n, d | n in db && Untouched(t, n) && d in db[n].depends && SatIn(db, Compared(t.flags.nodepversion, d))
      ensures SatPlanned(db, t, assumed, Compared(t.flags.nodepversion, d))
    {
      SatInLists(local, db, Compared(c.nodepversion, d));
      assert db[n] in local && !Touched(c, db[n]);
      PlannedIfAfter(local, db, t, assumed, Compared(c.nodepversion, d));
    }
  }

  lemma PlanAgreesIfChecked(local: seq<Pkg>, db: Cache, t: Trans, assumed: seq<Depend>)
    requires Lists(local, db) && IsCache(db) && SyncPrepare.NoConflicts(AsChange(local, t, assumed))
    ensures PlanAgrees(db, t)
  {
    var c := AsChange(local, t, assumed);
    forall a, n | a in t.add && n in db && Untouched(t, n)
      ensures !ConflictsWith(a, db[n]) && !ConflictsWith(db[n], a)
    {
      assert db[n] in local && !Touched(c, db[n]);
      SelectMembers(c, local, false, db[n]);
      assert db[n] in SyncPrepare.After(c);
    }
    forall a, b | a in t.add && b in t.add ensures !ConflictsWith(a, b) {
      assert b in SyncPrepare.After(c);
    }
  }

  // ---------- a complete commit ----------

  /** A stamped package differs from the original in nothing that dependencies look at. */
  lemma StampSame(p: Pkg, was: Option<Pkg>, f: Flags, d: Depend)
    ensures Stamp(p, was, f).depends == p.depends && (Satisfies(Stamp(p, was, f), d) <==> Satisfies(p, d))
  {}

  lemma StampConflicts(p: Pkg, was: Option<Pkg>, f: Flags, q: Pkg)
    ensures ConflictsWith(Stamp(p, was, f), q) <==> ConflictsWith(p, q)
    ensures ConflictsWith(q, Stamp(p, was, f)) <==> ConflictsWith(q, p)
  {}

  /** Where a package of the resulting cache comes from: it was left alone, or it was installed. */
  lemma Origin(db: Cache, t: Trans, name: string) returns (k: int)
    requires UniquelyNamed(t.add) && IsCache(db) && name in Outcome(db, t)
    ensures k < 0 ==> name in db && Untouched(t, name) && Outcome(db, t)[name] == db[name]
    ensures k >= 0 ==> k < |t.add| && t.add[k].name == name
    ensures k >= 0 ==> exists was :: Outcome(db, t)[name] == Stamp(t.add[k], was, t.flags)
  {
    OutcomeOverrides(db, t);
    if Named(t.add, name) {
      k :| 0 <= k < |t.add| && t.add[k].name == name;
    } else {
      k := -1;
    }
  }

  lemma PlannedIsMet(db: Cache, t: Trans, assumed: seq<Depend>, d: Depend)
    requires UniquelyNamed(t.add) && IsCache(db) && SatPlanned(db, t, assumed, d)
    ensures SatIn(Outcome(db, t), d) || Provided(d, assumed)
  {
    OutcomeOverrides(db, t);
    if SatisfiedBy(d, t.add) {
      var k :| 0 <= k < |t.add| && Satisfies(t.add[k], d);
      var was := if Named(t.remove, t.add[k].name) then None else Lookup(db, t.add[k].name);
      StampSame(t.add[k], was, t.flags, d);
      assert t.add[k].name in Outcome(db, t);
    } else if !Provided(d, assumed) {
      var n :| n in db && Untouched(t, n) && Satisfies(db[n], d);
      assert Lookup(Outcome(db, t), n) == Lookup(db, n);
      assert n in Outcome(db, t);
    }
  }

  /** A checked transaction, carried out completely, keeps a healthy system healthy. */
  lemma StaysHealthy(db: Cache, t: Trans, assumed: seq<Depend>)
    requires UniquelyNamed(t.add) && IsCache(db) && !t.flags.nodepversion
    requires PlanKeeps(db, t, assumed) && PlanAgrees(db, t) && Healthy(db, assumed)
    ensures Healthy(Outcome(db, t), assumed)
  {
    var db1 := Outcome(db, t);
    forall n, d | n in db1 && d in db1[n].depends ensures SatIn(db1, d) || Provided(d, assumed) {
      DependencyHolds(db, t, assumed, n, d);
    }
    forall m, n | m in db1 && n in db1 ensures !ConflictsWith(db1[m], db1[n]) {
      NoConflictBetween(db, t, m, n, assumed);
    }
  }

  lemma DependencyHolds(db: Cache, t: Trans, assumed: seq<Depend>, n: string, d: Depend)
    requires UniquelyNamed(t.add) && IsCache(db) && !t.flags.nodepversion
    requires PlanKeeps(db, t, assumed) && Healthy(db, assumed) && n in Outcome(db, t) && d in Outcome(db, t)[n].depends
    ensures SatIn(Outcome(db, t), d) || Provided(d, assumed)
  {
    var k := Origin(db, t, n);
    if k >= 0 {
      assert t.add[k] in t.add && Compared(t.flags.nodepversion, d) == d;
      PlannedIsMet(db, t, assumed, d);
    } else if !Provided(d, assumed) {
      assert SatIn(db, d) && Compared(t.flags.nodepversion, d) == d;
      PlannedIsMet(db, t, assumed, d);
    }
  }

  lemma NoConflictBetween(db: Cache, t: Trans, m: string, n: string, assumed: seq<Depend>)
    requires UniquelyNamed(t.add) && IsCache(db) && PlanAgrees(db, t) && Healthy(db, assumed)
    requires m in Outcome(db, t) && n in Outcome(db, t)
    ensures !ConflictsWith(Outcome(db, t)[m], Outcome(db, t)[n])
  {
    var db1 := Outcome(db, t);
    var j := Origin(db, t, m);
    var k := Origin(db, t, n);
    var p := if j >= 0 then t.add[j] else db1[m];
    var q := if k >= 0 then t.add[k] else db1[n];
    assert (j >= 0 ==> p in t.add) && (k >= 0 ==> q in t.add);
    assert (j < 0 ==> m in db && p == db[m]) && (k < 0 ==> n in db && q == db[n]);
    assert !ConflictsWith(p, q);
    if j >= 0 {
      var was :| db1[m] == Stamp(t.add[j], was, t.flags);
      assert ConflictsWith(db1[m], db1[n]) <==> ConflictsWith(p, db1[n]);
    }
    if k >= 0 {
      var was :| db1[n] == Stamp(t.add[k], was, t.flags);
      assert ConflictsWith(p, db1[n]) <==> ConflictsWith(p, q);
    }
  }

  // ---------- exactly when ----------

  /** The same plan with versions counting. */
  function Strict(t: Trans): (u: Trans) {
    t.(flags := t.flags.(nodepversion := false))
  }

  /** Taken as a plan, this keeps all dependencies, with their versions, and brings no conflict. */
  ghost predicate Passes(db: Cache, t: Trans, assumed: seq<Depend>) {
    PlanKeeps(db, Strict(t), assumed) && PlanAgrees(db, t)
  }

  lemma MetIsPlanned(db: Cache, t: Trans, assumed: seq<Depend>, d: Depend)
    requires UniquelyNamed(t.add) && IsCache(db) && SatIn(Outcome(db, t), d)
    ensures SatPlanned(db, t, assumed, d)
  {
    var n :| n in Outcome(db, t) && Satisfies(Outcome(db, t)[n], d);
    var k := Origin(db, t, n);
    if k >= 0 {
      var was :| Outcome(db, t)[n] == Stamp(t.add[k], was, t.flags);
      StampSame(t.add[k], was, t.flags, d);
    }
  }

  /** What is installed is found in the resulting cache. */
  lemma AddedIsThere(db: Cache, t: Trans, p: Pkg) returns (was: Option<Pkg>)
    requires UniquelyNamed(t.add) && p in t.add
    ensures p.name in Outcome(db, t) && Outcome(db, t)[p.name] == Stamp(p, was, t.flags)
  {
    OutcomeOverrides(db, t);
    var k :| 0 <= k < |t.add| && t.add[k] == p;
    was := if Named(t.remove, p.name) then None else Lookup(db, p.name);
  }

  /** What is left alone is found there too. */
  lemma UntouchedIsThere(db: Cache, t: Trans, n: string)
    requires UniquelyNamed(t.add) && n in db && Untouched(t, n)
    ensures n in Outcome(db, t) && Outcome(db, t)[n] == db[n]
  {
    OutcomeOverrides(db, t);
    assert Lookup(Outcome(db, t), n) == Lookup(db, n);
  }

  lemma HealthyKeeps(db: Cache, t: Trans, assumed: seq<Depend>)
    requires UniquelyNamed(t.add) && IsCache(db) && Healthy(Outcome(db, t), assumed)
    ensures PlanKeeps(db, Strict(t), assumed)
  {
    var u, db1 := Strict(t), Outcome(db, t);
    assert Outcome(db, u) == db1 by { InstalledStrict(Removed(db, t.remove), t.add, t.flags); }
    forall p, d | p in t.add && d in p.depends ensures SatPlanned(db, u, assumed, d) {
      var was := AddedIsThere(db, t, p);
      assert d in db1[p.name].depends;
      if SatIn(db1, d) { MetIsPlanned(db, t, assumed, d); }
    }
    forall n, d | n in db && Untouched(t, n) && d in db[n].depends ensures SatPlanned(db, u, assumed, d) {
      UntouchedIsThere(db, t, n);
      if SatIn(db1, d) { MetIsPlanned(db, t, assumed, d); }
    }
  }

  lemma HealthyAgrees(db: Cache, t: Trans, assumed: seq<Depend>)
    requires UniquelyNamed(t.add) && Healthy(Outcome(db, t), assumed)
    ensures PlanAgrees(db, t)
  {
    var db1 := Outcome(db, t);
    forall a, b | a in t.add && b in t.add ensures !ConflictsWith(a, b) {
      var was := AddedIsThere(db, t, a);
      var was' := AddedIsThere(db, t, b);
      StampConflicts(a, was, t.flags, db1[b.name]);
      StampConflicts(b, was', t.flags, a);
    }
    forall a, n | a in t.add && n in db && Untouched(t, n)
      ensures !ConflictsWith(a, db[n]) && !ConflictsWith(db[n], a)
    {
      var was := AddedIsThere(db, t, a);
      UntouchedIsThere(db, t, n);
      StampConflicts(a, was, t.flags, db[n]);
    }
  }

  /** A healthy system is healthy after a complete commit if and only if the plan passes the checks. */
  lemma HealthyExactly(db: Cache, t: Trans, assumed: seq<Depend>)
    requires UniquelyNamed(t.add) && IsCache(db) && Healthy(db, assumed)
    ensures Healthy(Outcome(db, t), assumed) <==> Passes(db, t, assumed)
  {
    if Passes(db, t, assumed) {
      InstalledStrict(Removed(db, t.remove), t.add, t.flags);
      StaysHealthy(db, Strict(t), assumed);
    } else if Healthy(Outcome(db, t), assumed) {
      HealthyKeeps(db, t, assumed);
      HealthyAgrees(db, t, assumed);
    }
  }

  /** A healthy system is healthy after any end of a commit if and only if the part of the plan that was
      carried out passes the checks. */
  lemma EndsHealthyExactly(db: Cache, t: Trans, db1: Cache, phase: Phase, e: Ending, assumed: seq<Depend>)
    requires UniquelyNamed(t.add) && IsCache(db) && Healthy(db, assumed) && EndsAs(db, t, db1, phase, e)
    ensures Healthy(db1, assumed) <==> Passes(db, Executed(t, e), assumed)
  {
    assert forall i :: 0 <= i < |Executed(t, e).add| ==> Executed(t, e).add[i] == t.add[i];
    HealthyExactly(db, Executed(t, e), assumed);
  }
}
