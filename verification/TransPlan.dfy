/** Preparing a transaction (lib/libalpm/trans.c: alpm_trans_prepare): the checks of a removal or an
    installation, and the order of the steps. */
module TransPlan {
  import opened Packages
  import opened Deps
  import opened DepOrder
  import opened SortByDeps
  import opened Resolve
  import Conflicts
  import RemovePrepare
  import SyncPrepare
  import opened TransSpec
  import opened TransHealth
  import opened TransStop

  ghost predicate SameMembership(s: seq<Pkg>, t: seq<Pkg>) {
    forall p :: p in s <==> p in t
  }

  /** pkgs are the installed packages that are neither in s nor in t. */
  ghost predicate RestOf(pkgs: seq<Pkg>, db: Cache, s: seq<Pkg>, t: seq<Pkg>) {
    forall p :: p in pkgs <==> p.name in db && db[p.name] == p && !Named(s, p.name) && !Named(t, p.name)
  }

  /** Without cycles among these packages and the ones they may depend on, the order is right. */
  ghost predicate AddOrdered(db: Cache, t: Trans) {
    exists pkgs :: RestOf(pkgs, db, t.add, t.remove) && (Acyclic(t.add + pkgs) ==> DependsFirst(t.add))
  }

  ghost predicate RemoveOrdered(db: Cache, t: Trans) {
    exists pkgs :: RestOf(pkgs, db, t.remove, []) && (Acyclic(t.remove + pkgs) ==> DependentsFirst(t.remove))
  }

  predicate Checked(t: Trans) {
    !t.flags.nodeps && !(t.add == [] && t.flags.cascade && t.flags.recurse && t.flags.nodepversion)
  }

  /** What a prepared transaction promises. */
  ghost predicate PlanOk(db: Cache, t: Trans, assumed: seq<Depend>) {
    && UniquelyNamed(t.add) && UniquelyNamed(t.remove) && Taken(t.remove, db)
    && (forall p :: p in t.add && p.name in db ==> p.name in t.oldpkgs && t.oldpkgs[p.name] == db[p.name])
    && (Checked(t) ==> PlanKeeps(db, t, assumed))
    && (!t.flags.noconflicts ==> PlanAgrees(db, t))
    && (!t.flags.nodeps ==> AddOrdered(db, t) && RemoveOrdered(db, t))
  }

  // ---------- what was asked for ----------

  ghost function RemoveFlagsOf(f: Flags): (r: RemovePrepare.Flags) {
    RemovePrepare.Flags(nodeps := f.nodeps, cascade := f.cascade, recurse := f.recurse, recurseall := f.recurseall,
                        unneeded := f.unneeded)
  }

  ghost function SyncFlagsOf(f: Flags): (r: SyncPrepare.Flags) {
    SyncPrepare.Flags(nodeps := f.nodeps, noconflicts := f.noconflicts)
  }

  ghost function SystemOf(cfg: Config): (s: RemovePrepare.System) {
    RemovePrepare.System(local := cfg.local, assumed := cfg.assumed, nodepversion := cfg.nodepversion)
  }

  /** The plan u removes what the flags make of the request t or, if packages are to be installed, answers it. */
  ghost predicate Requested(cfg: Config, removes: SyncPrepare.Removes, ans: SyncPrepare.Replies, t: Trans, u: Trans) {
    if t.add == [] then
      (forall p :: p !in u.add) && exists rem1, rem2 ::
        RemovePrepare.Planned(SystemOf(cfg), t.remove, RemoveFlagsOf(t.flags), rem1, rem2, u.remove)
    else
      exists targets, aside ::
        SyncPrepare.Answered(cfg, t.add, t.remove, removes, SyncFlagsOf(t.flags), ans, targets, aside,
                                  u.add, u.remove)
  }

  /** Why a request is turned down: complaints about a removal, or the error of a synchronisation. */
  datatype Why = Granted | Broken(data: seq<Missing>) | Failed(err: SyncPrepare.Error)

  ghost predicate Refused(cfg: Config, removes: SyncPrepare.Removes, ans: SyncPrepare.Replies, t: Trans, u: Trans,
                          why: Why)
  {
    if t.add == [] then
      && why.Broken? && why.data != [] && why.data == BadDeps(AsChange(cfg.local, u, cfg.assumed), true)
      && u.add == [] && !t.flags.nodeps && !t.flags.cascade && !t.flags.unneeded
      && RemovePrepare.Asked(cfg.local, t.remove, RemoveFlagsOf(t.flags), u.remove)
    else
      why.Failed? && exists targets, aside ::
        SyncPrepare.Refused(cfg, t.add, t.remove, removes, SyncFlagsOf(t.flags), ans, why.err, targets, aside, u.add,
                            u.remove)
  }

  /** What the plan installs takes the place of what it replaces. */
  lemma ReplacedGo(db: Cache, cfg: Config, replaced: map<Pkg, seq<string>>, ans: SyncPrepare.Replies, t: Trans,
                   u: Trans, a: Pkg, name: string)
    requires IsCache(db) && Requested(cfg, Replacing(db, replaced), ans, t, u)
    requires a in u.add && a in replaced && name in replaced[a] && name in db
    ensures Named(u.remove, name)
  {
    var targets, aside :| SyncPrepare.Answered(cfg, t.add, t.remove, Replacing(db, replaced), SyncFlagsOf(t.flags), ans,
                                               targets, aside, u.add, u.remove);
    assert db[name] in SyncPrepare.RemovesOf(Replacing(db, replaced), a);
  }

  lemma AnswerReordered(cfg: Config, t: Trans, removes: SyncPrepare.Removes, ans: SyncPrepare.Replies,
                        targets: seq<Pkg>, aside: seq<Pkg>, v: Trans, u: Trans)
    requires SyncPrepare.Answered(cfg, t.add, t.remove, removes, SyncFlagsOf(t.flags), ans, targets, aside,
                                  v.add, v.remove)
    requires SameMembership(u.add, v.add) && SameMembership(u.remove, v.remove)
    ensures SyncPrepare.Answered(cfg, t.add, t.remove, removes, SyncFlagsOf(t.flags), ans, targets, aside,
                                  u.add, u.remove)
  {
    forall a, b | Conflicts.Between(a, b, cfg.local, v.add) ensures Conflicts.Between(a, b, cfg.local, u.add) {
      if Named(u.add, b.name) { SameNames(u.add, v.add, b.name); }
    }
    forall p | SyncPrepare.Replaced(v.add, removes, p) ensures SyncPrepare.Replaced(u.add, removes, p) {
      var a :| a in v.add && p in SyncPrepare.RemovesOf(removes, a);
      assert a in u.add;
    }
    forall a, p | a in u.add && p in SyncPrepare.RemovesOf(removes, a) ensures Named(u.remove, p.name) {
      assert a in v.add;
      SameNames(v.remove, u.remove, p.name);
    }
  }

  lemma RequestReordered(cfg: Config, t: Trans, removes: SyncPrepare.Removes, ans: SyncPrepare.Replies, v: Trans,
                         u: Trans)
    requires Requested(cfg, removes, ans, t, v) && SameMembership(u.add, v.add) && SameMembership(u.remove, v.remove)
    ensures Requested(cfg, removes, ans, t, u)
  {
    if t.add == [] {
      var rem1, rem2 :| RemovePrepare.Planned(SystemOf(cfg), t.remove, RemoveFlagsOf(t.flags), rem1, rem2, v.remove);
      RemovePrepare.PlannedReordered(SystemOf(cfg), t.remove, RemoveFlagsOf(t.flags), rem1, rem2, v.remove, u.remove);
    } else {
      var targets, aside :| SyncPrepare.Answered(cfg, t.add, t.remove, removes, SyncFlagsOf(t.flags), ans, targets,
        aside, v.add, v.remove);
      AnswerReordered(cfg, t, removes, ans, targets, aside, v, u);
    }
  }

  // ---------- only membership matters to the checks ----------

  lemma SameNames(s: seq<Pkg>, t: seq<Pkg>, name: string)
    requires SameMembership(s, t) && Named(s, name)
    ensures Named(t, name)
  {
    var i :| 0 <= i < |s| && s[i].name == name;
    assert s[i] in t;
  }

  lemma SameSatisfied(s: seq<Pkg>, t: seq<Pkg>, d: Depend)
    requires SameMembership(s, t) && SatisfiedBy(d, s)
    ensures SatisfiedBy(d, t)
  {
    var i :| 0 <= i < |s| && Satisfies(s[i], d);
    assert s[i] in t;
  }

  lemma SameUntouched(t: Trans, u: Trans)
    requires SameMembership(t.add, u.add) && SameMembership(t.remove, u.remove)
    ensures forall n :: Untouched(t, n) <==> Untouched(u, n)
  {
    forall n ensures Untouched(t, n) <==> Untouched(u, n) {
      if Named(t.add, n) { SameNames(t.add, u.add, n); }
      if Named(u.add, n) { SameNames(u.add, t.add, n); }
      if Named(t.remove, n) { SameNames(t.remove, u.remove, n); }
      if Named(u.remove, n) { SameNames(u.remove, t.remove, n); }
    }
  }

  lemma KeepsReordered(db: Cache, t: Trans, u: Trans, assumed: seq<Depend>)
    requires SameMembership(t.add, u.add) && SameMembership(t.remove, u.remove) && t.flags == u.flags
    requires PlanKeeps(db, t, assumed)
    ensures PlanKeeps(db, u, assumed)
  {
    SameUntouched(t, u);
    forall d | SatPlanned(db, t, assumed, Compared(t.flags.nodepversion, d))
      ensures SatPlanned(db, u, assumed, Compared(u.flags.nodepversion, d))
    {
      if SatisfiedBy(Compared(t.flags.nodepversion, d), t.add) {
        SameSatisfied(t.add, u.add, Compared(t.flags.nodepversion, d));
      }
    }
    forall p, d | p in u.add && d in p.depends ensures SatPlanned(db, u, assumed, Compared(u.flags.nodepversion, d)) {
      assert SatPlanned(db, t, assumed, Compared(t.flags.nodepversion, d));
    }
    forall n, d | n in db && Untouched(u, n) && d in db[n].depends && SatIn(db, Compared(u.flags.nodepversion, d))
      ensures SatPlanned(db, u, assumed, Compared(u.flags.nodepversion, d))
    {
      assert SatPlanned(db, t, assumed, Compared(t.flags.nodepversion, d));
    }
  }

  lemma AgreesReordered(db: Cache, t: Trans, u: Trans)
    requires SameMembership(t.add, u.add) && SameMembership(t.remove, u.remove) && PlanAgrees(db, t)
    ensures PlanAgrees(db, u)
  {
    SameUntouched(t, u);
  }

  // ---------- ordering ----------

  lemma SamePermuted(s: seq<Pkg>, t: seq<Pkg>)
    requires multiset(s) == multiset(t)
    ensures SameMembership(s, t)
  {
    forall p ensures p in s <==> p in t { assert p in s <==> p in multiset(s); }
  }

  /** Orders the packages to install. */
  method OrderAdd(local: seq<Pkg>, add0: seq<Pkg>, rem: seq<Pkg>) returns (add: seq<Pkg>, ghost pkgs: seq<Pkg>)
    requires UniquelyNamed(local) && UniquelyNamed(add0)
    ensures UniquelyNamed(add) && SameMembership(add, add0)
    ensures forall p :: p in pkgs <==> p in local && !Named(add0, p.name) && !Named(rem, p.name)
    ensures Acyclic(add0 + pkgs) ==> DependsFirst(add)
  {
    add, pkgs := Sort(add0, local, rem, false);
    SamePermuted(add, add0);
    if Acyclic(add0 + pkgs) {
      assert FollowsAll(add0 + pkgs, add, add);
      FollowsDirectly(add0 + pkgs, add);
    }
  }

  /** Orders the packages to remove. */
  method OrderRemove(local: seq<Pkg>, rem0: seq<Pkg>) returns (rem: seq<Pkg>, ghost pkgs: seq<Pkg>)
    requires UniquelyNamed(local) && UniquelyNamed(rem0)
    ensures UniquelyNamed(rem) && SameMembership(rem, rem0)
    ensures forall p :: p in pkgs <==> p in local && !Named(rem0, p.name)
    ensures Acyclic(rem0 + pkgs) ==> DependentsFirst(rem)
  {
    rem, pkgs := Sort(rem0, local, [], true);
    SamePermuted(rem, rem0);
    if Acyclic(rem0 + pkgs) {
      BackwardUnique(rem);
      BackwardOrder(rem0, rem0 + pkgs, Backward(rem), rem);
    }
  }

  lemma BackwardOrder(rem0: seq<Pkg>, U: seq<Pkg>, order: seq<Pkg>, rem: seq<Pkg>)
    requires UniquelyNamed(order) && SameMembership(order, rem) && SameMembership(rem, rem0)
    requires FollowsAll(U, rem0, order) && Subset(rem0, U)
    requires |rem| == |order| && forall k :: 0 <= k < |rem| ==> rem[k] == order[|order| - 1 - k]
    ensures DependentsFirst(rem)
  {
    assert FollowsAll(U, order, order);
    forall k | 0 <= k < |order| ensures order[k] in U { assert order[k] in rem0; }
    FollowsDirectly(U, order);
    ReversedOrder(order, rem);
  }

  lemma SameAcyclic(a: seq<Pkg>, b: seq<Pkg>, pkgs: seq<Pkg>)
    requires SameMembership(a, b) && Acyclic(a + pkgs)
    ensures Acyclic(b + pkgs)
  {
    forall p, q | Reaches(b + pkgs, p, q) && Reaches(b + pkgs, q, p) ensures p == q {
      ReachesMore(b + pkgs, a + pkgs, p, q);
      ReachesMore(b + pkgs, a + pkgs, q, p);
    }
  }

  // ---------- the whole preparation ----------

  /** The installed versions of the packages to install. */
  function OldPkgs(db: Cache, add: seq<Pkg>): (r: Cache)
    ensures forall p :: p in add && p.name in db ==> p.name in r && r[p.name] == db[p.name]
  {
    map n | n in db && Named(add, n) :: db[n]
  }

  /** The installed packages of these names. */
  function Owned(db: Cache, names: seq<string>): (r: seq<Pkg>)
    requires IsCache(db)
    ensures Taken(r, db) && forall p :: p in r <==> p.name in names && p.name in db && db[p.name] == p
  {
    if names == [] then []
    else (if names[0] in db then [db[names[0]]] else []) + Owned(db, names[1..])
  }

  function Replacing(db: Cache, replaced: map<Pkg, seq<string>>): (r: SyncPrepare.Removes)
    requires IsCache(db)
    ensures OwnRemoves(r, db) && r.Keys == replaced.Keys
    ensures forall p, q :: p in replaced ==> (q in r[p] <==> q.name in replaced[p] && q.name in db && db[q.name] == q)
  {
    map p | p in replaced :: Owned(db, replaced[p])
  }

  /** What is to be replaced is installed. */
  ghost predicate OwnRemoves(removes: SyncPrepare.Removes, db: Cache) {
    forall a :: a in removes ==> Taken(removes[a], db)
  }

  /** The inputs of the checks are in order. */
  ghost predicate Orderly(db: Cache, cfg: Config, t: Trans, removes: SyncPrepare.Removes) {
    && IsCache(db) && Lists(cfg.local, db) && DbsUnique(cfg.sync) && UniquelyNamed(t.add) && UniquelyNamed(t.remove)
    && Taken(t.remove, db) && OwnRemoves(removes, db) && cfg.nodepversion == t.flags.nodepversion
  }

  /** The plan keeps what the flags say is checked. */
  ghost predicate Promises(db: Cache, u: Trans, assumed: seq<Depend>) {
    (Checked(u) ==> PlanKeeps(db, u, assumed)) && (!u.flags.noconflicts ==> PlanAgrees(db, u))
  }

  lemma PromisesIfChecked(db: Cache, cfg: Config, u: Trans)
    requires IsCache(db) && Lists(cfg.local, db)
    requires Checked(u) ==> KeepsDependencies(AsChange(cfg.local, u, cfg.assumed))
    requires !u.flags.noconflicts ==> SyncPrepare.NoConflicts(AsChange(cfg.local, u, cfg.assumed))
    ensures Promises(db, u, cfg.assumed)
  {
    if Checked(u) { PlanKeepsIfChecked(cfg.local, db, u, cfg.assumed); }
    if !u.flags.noconflicts { PlanAgreesIfChecked(cfg.local, db, u, cfg.assumed); }
  }

  method CheckRemoval(db: Cache, cfg: Config, t: Trans, ghost removes: SyncPrepare.Removes,
                      ghost ans: SyncPrepare.Replies)
    returns (ok: bool, u: Trans, why: Why)
    requires Orderly(db, cfg, t, removes) && t.add == []
    ensures u.flags == t.flags && u.phase == t.phase && UniquelyNamed(u.add) && UniquelyNamed(u.remove)
    ensures Taken(u.remove, db)
    ensures ok ==> Promises(db, u, cfg.assumed) && Requested(cfg, removes, ans, t, u)
    ensures !ok ==> Refused(cfg, removes, ans, t, u, why)
  {
    var f := t.flags;
    var rem, data;
    ghost var rem1, rem2;
    ok, rem, data, rem1, rem2 := RemovePrepare.Prepare(
      RemovePrepare.System(cfg.local, cfg.assumed, cfg.nodepversion), t.remove,
      RemovePrepare.Flags(f.nodeps, f.cascade, f.recurse, f.recurseall, f.unneeded));
    u, why := t.(remove := rem), if ok then Granted else Broken(data);
    assert RemovePrepare.Flags(f.nodeps, f.cascade, f.recurse, f.recurseall, f.unneeded) == RemoveFlagsOf(f);
    if ok {
      assert RemovePrepare.Planned(SystemOf(cfg), t.remove, RemoveFlagsOf(f), rem1, rem2, u.remove);
      PromisesIfChecked(db, cfg, u);
    }
  }

  lemma JustifiedTaken(db: Cache, cfg: Config, t: Trans, removes: SyncPrepare.Removes, ans: SyncPrepare.Replies,
                       add: seq<Pkg>, rem: seq<Pkg>)
    requires Orderly(db, cfg, t, removes)
    requires SyncPrepare.Justifies(cfg, t.remove, removes, t.flags.noconflicts, ans.giveUp, add, rem)
    ensures Taken(rem, db)
  {}

  /** The preparation of an installation, with its reasons. */
  method Synchronise(cfg: Config, t: Trans, removes: SyncPrepare.Removes, ans: SyncPrepare.Replies)
    returns (ok: bool, u: Trans, why: Why)
    requires DbsUnique(cfg.sync) && UniquelyNamed(cfg.local) && UniquelyNamed(t.add) && UniquelyNamed(t.remove)
    requires t.add != [] && cfg.nodepversion == t.flags.nodepversion
    ensures u == t.(add := u.add, remove := u.remove) && UniquelyNamed(u.add) && UniquelyNamed(u.remove)
    ensures ok && !t.flags.nodeps ==> KeepsDependencies(AsChange(cfg.local, u, cfg.assumed))
    ensures ok && !t.flags.noconflicts ==> SyncPrepare.NoConflicts(AsChange(cfg.local, u, cfg.assumed))
    ensures SyncPrepare.Justifies(cfg, t.remove, removes, t.flags.noconflicts, ans.giveUp, u.add, u.remove)
    ensures if ok then Requested(cfg, removes, ans, t, u) else Refused(cfg, removes, ans, t, u, why)
  {
    var err, add, rem;
    ghost var targets, aside;
    err, add, rem, targets, aside :=
      SyncPrepare.Prepare(cfg, t.add, t.remove, removes, SyncPrepare.Flags(t.flags.nodeps, t.flags.noconflicts), ans);
    ok, u := err == SyncPrepare.NoError, t.(add := add, remove := rem);
    why := if ok then Granted else Failed(err);
    assert SyncPrepare.Flags(t.flags.nodeps, t.flags.noconflicts) == SyncFlagsOf(t.flags);
  }

  method CheckInstall(db: Cache, cfg: Config, t: Trans, removes: SyncPrepare.Removes, ans: SyncPrepare.Replies)
    returns (ok: bool, u: Trans, why: Why)
    requires Orderly(db, cfg, t, removes) && t.add != []
    ensures u.flags == t.flags && u.phase == t.phase && UniquelyNamed(u.add) && UniquelyNamed(u.remove)
    ensures Taken(u.remove, db)
    ensures ok ==> Promises(db, u, cfg.assumed) && Requested(cfg, removes, ans, t, u)
    ensures !ok ==> Refused(cfg, removes, ans, t, u, why)
  {
    ok, u, why := Synchronise(cfg, t, removes, ans);
    JustifiedTaken(db, cfg, t, removes, ans, u.add, u.remove);
    if ok { PromisesIfChecked(db, cfg, u); }
  }

  /** The checks of a removal or an installation. */
  method Check(db: Cache, cfg: Config, t: Trans, removes: SyncPrepare.Removes, ans: SyncPrepare.Replies)
    returns (ok: bool, u: Trans, why: Why)
    requires Orderly(db, cfg, t, removes)
    ensures u.flags == t.flags && u.phase == t.phase && UniquelyNamed(u.add) && UniquelyNamed(u.remove)
    ensures Taken(u.remove, db)
    ensures ok ==> Promises(db, u, cfg.assumed) && Requested(cfg, removes, ans, t, u)
    ensures !ok ==> Refused(cfg, removes, ans, t, u, why)
  {
    if t.add == [] {
      ok, u, why := CheckRemoval(db, cfg, t, removes, ans);
    } else {
      ok, u, why := CheckInstall(db, cfg, t, removes, ans);
    }
  }

  lemma OrderedPlan(db: Cache, local: seq<Pkg>, t: Trans, u: Trans, ap: seq<Pkg>, rp: seq<Pkg>)
    requires Lists(local, db) && SameMembership(u.add, t.add) && SameMembership(u.remove, t.remove)
    requires forall p :: p in ap <==> p in local && !Named(t.add, p.name) && !Named(t.remove, p.name)
    requires forall p :: p in rp <==> p in local && !Named(t.remove, p.name)
    requires Acyclic(t.add + ap) ==> DependsFirst(u.add)
    requires Acyclic(t.remove + rp) ==> DependentsFirst(u.remove)
    ensures AddOrdered(db, u) && RemoveOrdered(db, u)
  {
    SameUntouched(t, u);
    forall n ensures Named(t.remove, n) <==> Named(u.remove, n) {
      if Named(t.remove, n) { SameNames(t.remove, u.remove, n); }
      if Named(u.remove, n) { SameNames(u.remove, t.remove, n); }
    }
    forall p ensures p in ap <==> p.name in db && db[p.name] == p && !Named(u.add, p.name) && !Named(u.remove, p.name) {
      assert Untouched(t, p.name) <==> Untouched(u, p.name);
    }
    assert RestOf(ap, db, u.add, u.remove);
    assert RestOf(rp, db, u.remove, []);
    if Acyclic(u.add + ap) { SameAcyclic(u.add, t.add, ap); }
    if Acyclic(u.remove + rp) { SameAcyclic(u.remove, t.remove, rp); }
  }

  /** Orders the steps, unless dependencies are not looked at. */
  method Order(db: Cache, local: seq<Pkg>, v: Trans) returns (u: Trans)
    requires Lists(local, db) && UniquelyNamed(v.add) && UniquelyNamed(v.remove)
    ensures u.flags == v.flags && u.phase == v.phase && u.oldpkgs == OldPkgs(db, u.add)
    ensures UniquelyNamed(u.add) && UniquelyNamed(u.remove) && SameMembership(u.add, v.add)
    ensures SameMembership(u.remove, v.remove)
    ensures !v.flags.nodeps ==> AddOrdered(db, u) && RemoveOrdered(db, u)
  {
    if v.flags.nodeps {
      return v.(oldpkgs := OldPkgs(db, v.add));
    }
    ghost var ap, rp;
    var add, rem;
    add, ap := OrderAdd(local, v.add, v.remove);
    rem, rp := OrderRemove(local, v.remove);
    u := v.(add := add, remove := rem, oldpkgs := OldPkgs(db, add));
    OrderedPlan(db, local, v, u, ap, rp);
  }

  lemma PlanDone(db: Cache, v: Trans, u: Trans, assumed: seq<Depend>)
    requires SameMembership(u.add, v.add) && SameMembership(u.remove, v.remove) && u.flags == v.flags
    requires Promises(db, v, assumed)
    ensures Promises(db, u, assumed)
  {
    assert u.add != [] ==> u.add[0] in v.add;
    if Checked(u) {
      assert Checked(v);
      KeepsReordered(db, v, u, assumed);
    }
    if !v.flags.noconflicts { AgreesReordered(db, v, u); }
  }

  /** Checks and orders a transaction. */
  method Plan(db: Cache, cfg: Config, t: Trans, removes: SyncPrepare.Removes, ans: SyncPrepare.Replies)
    returns (ok: bool, u: Trans, why: Why)
    requires Orderly(db, cfg, t, removes) && t.phase == Initialized
    ensures u.flags == t.flags && UniquelyNamed(u.add) && UniquelyNamed(u.remove) && Taken(u.remove, db)
    ensures if ok then u.phase == Prepared && PlanOk(db, u, cfg.assumed) && Requested(cfg, removes, ans, t, u)
      else u.phase == Initialized && Refused(cfg, removes, ans, t, u, why)
  {
    var v;
    ok, v, why := Check(db, cfg, t, removes, ans);
    if !ok {
      return false, v, why;
    }
    u := Order(db, cfg.local, v.(phase := Prepared));
    PlanDone(db, v, u, cfg.assumed);
    RequestReordered(cfg, t, removes, ans, v, u);
  }
}
