/** Whole runs of the transaction interface: any sequence of calls, with any answers, failures and
    interrupts. */
module TransRuns {
  import opened Packages
  import opened Deps
  import opened DepOrder
  import opened Resolve
  import opened Version
  import SyncPrepare
  import opened TransSpec
  import opened TransHealth
  import opened TransStop
  import opened TransPlan
  import opened Transaction

  datatype Call =
    | Init(flags: Flags, free: bool)
    | AddPkg(pkg: Pkg)
    | RemovePkg(name: string)
    | Prepare(replaced: map<Pkg, seq<string>>, ans: SyncPrepare.Replies, arch: bool)
    | Commit(o: Outside)
    | Interrupt
    | Release

  /** What does not change: repositories, assumed provisions, ignored packages, and the answers of the user who is
      asked for a provider. */
  datatype Env = Env(sync: seq<Db>, assumed: seq<Depend>, ignored: set<string>, choose: (Depend, seq<Pkg>) -> int)

  datatype View = View(db: Cache, trans: Option<Trans>)

  predicate InPhase(v: View, phase: Phase) {
    v.trans.Some? && v.trans.value.phase == phase
  }

  /** The commit phase was entered, and ended as said. */
  ghost predicate Enters(v: View, w: View, e: Ending) {
    && InPhase(v, Prepared) && w.trans.Some? && w.trans.value == v.trans.value.(phase := w.trans.value.phase)
    && EndsAs(v.db, v.trans.value, w.db, w.trans.value.phase, e)
  }

  /** What AddPkg makes of the targets. */
  function AddTo(db: Cache, t: Trans, p: Pkg): (u: Trans) {
    if Named(t.add, p.name) || (p.name in db && t.flags.needed
      && VerCmp(Some(p.version), Some(db[p.name].version)) == 0) then t
    else t.(add := t.add + [p.(reason := Explicit)])
  }

  /** What RemovePkg makes of them. */
  function RemoveFrom(db: Cache, t: Trans, name: string): (u: Trans) {
    if name !in db || Named(t.remove, name) then t else t.(remove := t.remove + [db[name]])
  }

  /** A preparation does nothing if there is nothing to do or the architecture is wrong; else it turns the request
      down for a reason, or answers it with a plan. */
  ghost predicate Prepares(env: Env, db: Cache, replaced: map<Pkg, seq<string>>, ans: SyncPrepare.Replies, arch: bool,
                           t: Trans, u: Trans) {
    if !arch || (t.add == [] && t.remove == []) then u == t
    else
      u.flags == t.flags && if u.phase == Prepared then Answers(env, db, replaced, ans, t, u)
                            else u.phase == Initialized && Refuses(env, db, replaced, ans, t, u)
  }

  ghost function ConfigIn(env: Env, local: seq<Pkg>, f: Flags): (cfg: Config) {
    Config(sync := env.sync, local := local, assumed := env.assumed, nodepversion := f.nodepversion,
           ignored := env.ignored, choose := env.choose)
  }

  ghost predicate Answers(env: Env, db: Cache, replaced: map<Pkg, seq<string>>, ans: SyncPrepare.Replies, t: Trans,
                          u: Trans) {
    && IsCache(db)
    && exists local :: Lists(local, db) && Requested(ConfigIn(env, local, t.flags), Replacing(db, replaced), ans, t, u)
  }

  ghost predicate Refuses(env: Env, db: Cache, replaced: map<Pkg, seq<string>>, ans: SyncPrepare.Replies, t: Trans,
                          u: Trans) {
    && IsCache(db)
    && exists local, why ::
         Lists(local, db) && Refused(ConfigIn(env, local, t.flags), Replacing(db, replaced), ans, t, u, why)
  }

  /** What one call can do; e tells how the commit phase ended if it was entered. */
  ghost predicate Allowed(env: Env, call: Call, v: View, w: View, e: Option<Ending>) {
    match call
    case Commit(o) =>
      && (e.Some? <==> InPhase(v, Prepared) && Starts(v.trans.value, o))
      && if e.Some? then Enters(v, w, e.value) && Brings(o, v.trans.value, e.value) else w == v
    case Init(f, free) =>
      e == None && if v.trans == None && (f.nolock || free)
                   then w == View(v.db, Some(Trans(f, Initialized, [], [], map[]))) else w == v
    case Release => e == None && w == View(v.db, None)
    case Interrupt => e == None && w == v
    case AddPkg(p) =>
      e == None && if InPhase(v, Initialized) then w == View(v.db, Some(AddTo(v.db, v.trans.value, p))) else w == v
    case RemovePkg(name) =>
      e == None && if InPhase(v, Initialized) then w == View(v.db, Some(RemoveFrom(v.db, v.trans.value, name)))
        else w == v
    case Prepare(replaced, ans, arch) =>
      e == None && if InPhase(v, Initialized)
                   then w.db == v.db && w.trans.Some?
                         && Prepares(env, v.db, replaced, ans, arch, v.trans.value, w.trans.value)
                     else w == v
  }

  /** A prepared transaction keeps its promises, whatever is called. */
  ghost predicate Sound(v: View, assumed: seq<Depend>) {
    IsCache(v.db) && (InPhase(v, Prepared) ==> PlanOk(v.db, v.trans.value, assumed))
  }

  ghost predicate IsRun(calls: seq<Call>, views: seq<View>, ends: seq<Option<Ending>>, env: Env) {
    && |ends| == |calls| && |views| == |calls| + 1
    && (forall i :: 0 <= i < |calls| ==> Allowed(env, calls[i], views[i], views[i + 1], ends[i]))
    && (forall i :: 0 <= i < |views| ==> Sound(views[i], env.assumed))
  }

  function EnvOf(h: Handle): (env: Env) {
    Env(h.sync, h.assumed, h.ignored, h.choose)
  }

  ghost function Seen(h: Handle): (v: View)
    reads h
  {
    View(h.db, h.trans)
  }

  ghost predicate Idle(h: Handle)
    reads h
  {
    h.Valid() && (h.trans.Some? ==> h.trans.value.phase != Committing)
  }

  method DoAdd(h: Handle, p: Pkg)
    requires Idle(h)
    modifies h
    ensures Idle(h) && Allowed(EnvOf(h), AddPkg(p), old(Seen(h)), Seen(h), None)
  {
    var ret := h.AddPkg(p);
  }

  method DoRemove(h: Handle, name: string)
    requires Idle(h)
    modifies h
    ensures Idle(h) && Allowed(EnvOf(h), RemovePkg(name), old(Seen(h)), Seen(h), None)
  {
    var ret := h.RemovePkg(name);
  }

  method DoPrepare(h: Handle, replaced: map<Pkg, seq<string>>, ans: SyncPrepare.Replies, arch: bool)
    requires Idle(h)
    modifies h
    ensures Idle(h) && Allowed(EnvOf(h), Prepare(replaced, ans, arch), old(Seen(h)), Seen(h), None)
  {
    ghost var before := h.trans;
    var ret, why := h.Prepare(replaced, ans, arch);
    if h.Open() && arch && ret != 0 && (before.value.add != [] || before.value.remove != []) {
      RefusesSo(h, replaced, ans, before.value, h.trans.value, why);
    }
  }

  lemma RefusesSo(h: Handle, replaced: map<Pkg, seq<string>>, ans: SyncPrepare.Replies, t: Trans, u: Trans, why: Why)
    requires h.Refuses(replaced, ans, t, u, why)
    ensures Refuses(EnvOf(h), h.db, replaced, ans, t, u)
  {
    var local :| Lists(local, h.db)
      && Refused(h.ConfigOf(local, t.flags), Replacing(h.db, replaced), ans, t, u, why);
    assert h.ConfigOf(local, t.flags) == ConfigIn(EnvOf(h), local, t.flags);
  }

  method DoCommit(h: Handle, o: Outside) returns (ghost e: Option<Ending>)
    requires Idle(h)
    modifies h
    ensures Idle(h) && Allowed(EnvOf(h), Commit(o), old(Seen(h)), Seen(h), e)
  {
    var ret, done;
    ret, done, e := h.Commit(o);
  }

  method Do(h: Handle, call: Call) returns (ghost e: Option<Ending>)
    requires Idle(h)
    modifies h
    ensures Idle(h) && Allowed(EnvOf(h), call, old(Seen(h)), Seen(h), e)
  {
    e := None;
    var ret;
    match call {
      case Init(f, free) => ret := h.Init(f, free);
      case AddPkg(p) => DoAdd(h, p);
      case RemovePkg(n) => DoRemove(h, n);
      case Prepare(replaced, ans, arch) => DoPrepare(h, replaced, ans, arch);
      case Commit(o) => e := DoCommit(h, o);
      case Interrupt => ret := h.SetInterrupted();
      case Release => ret := h.Release();
    }
  }

  /** Any sequence of calls on a handle is a run. */
  method Run(h: Handle, calls: seq<Call>) returns (ghost views: seq<View>, ghost ends: seq<Option<Ending>>)
    requires h.Valid() && h.trans == None
    modifies h
    ensures h.Valid() && IsRun(calls, views, ends, EnvOf(h))
    ensures views[0] == old(Seen(h)) && views[|calls|] == Seen(h)
  {
    views, ends := [Seen(h)], [];
    for i := 0 to |calls|
      invariant Idle(h)
      invariant IsRun(calls[..i], views, ends, EnvOf(h)) && views[0] == old(Seen(h)) && views[i] == Seen(h)
    {
      ghost var e := Do(h, calls[i]);
      views, ends := views + [Seen(h)], ends + [e];
    }
    assert calls[..|calls|] == calls;
  }

  // ---------- what holds of every run ----------

  /** The cache changes only where the commit phase is entered. */
  lemma {:induction false} OnlyCommitChanges(calls: seq<Call>, views: seq<View>, ends: seq<Option<Ending>>, env: Env,
                                             i: nat, j: nat)
    requires IsRun(calls, views, ends, env) && i <= j <= |calls| && forall k :: i <= k < j ==> ends[k] == None
    ensures views[i].db == views[j].db
    decreases j - i
  {
    if i < j {
      OnlyCommitChanges(calls, views, ends, env, i, j - 1);
      assert Allowed(env, calls[j - 1], views[j - 1], views[j], ends[j - 1]);
    }
  }

  /** A transaction whose commit phase was entered never returns to a phase from which it could be again. */
  lemma {:induction false} SpentUntilReleased(calls: seq<Call>, views: seq<View>, ends: seq<Option<Ending>>, env: Env,
                                              i: nat, j: nat)
    requires IsRun(calls, views, ends, env) && i < j <= |calls| && ends[i].Some?
    requires forall k :: i < k < j ==> calls[k] != Release
    ensures InPhase(views[j], Committed) || InPhase(views[j], Interrupted)
    decreases j - i
  {
    assert Allowed(env, calls[j - 1], views[j - 1], views[j], ends[j - 1]);
    if i + 1 < j {
      SpentUntilReleased(calls, views, ends, env, i, j - 1);
    }
  }

  /** A transaction enters the commit phase at most once: between two entries there is a release. */
  lemma EnteredOnce(calls: seq<Call>, views: seq<View>, ends: seq<Option<Ending>>, env: Env, i: nat, j: nat)
    requires IsRun(calls, views, ends, env) && i < j < |calls| && ends[i].Some? && ends[j].Some?
    ensures exists k :: i < k < j && calls[k] == Release
  {
    assert Allowed(env, calls[j], views[j], views[j + 1], ends[j]);
    assert InPhase(views[j], Prepared);
    if forall k :: i < k < j ==> calls[k] != Release {
      SpentUntilReleased(calls, views, ends, env, i, j);
    }
  }

  // ---------- health over whole runs ----------

  predicate DefaultChecks(f: Flags) {
    !f.nodeps && !f.noconflicts && !f.nodepversion
  }

  /** No dependency cycles among the installed packages, except of a package with itself. */
  ghost predicate AcyclicCache(db: Cache) {
    forall U :: RestOf(U, db, [], []) ==> Acyclic(U)
  }

  /** No dependency cycles among the packages to install and the installed ones they may rely on. */
  ghost predicate AcyclicWith(db: Cache, t: Trans) {
    forall pkgs :: RestOf(pkgs, db, t.add, t.remove) ==> Acyclic(t.add + pkgs)
  }

  /** The part of the plan that was carried out passes the checks. */
  ghost predicate Passed(v: View, e: Option<Ending>, env: Env) {
    e.Some? ==>
      v.trans.Some? && Fits(v.trans.value, e.value) && Passes(v.db, Executed(v.trans.value, e.value), env.assumed)
  }

  /** One call leaves a healthy system healthy if and only if what it carried out passes the checks. */
  lemma StepHealthyExactly(call: Call, v: View, w: View, e: Option<Ending>, env: Env)
    requires Sound(v, env.assumed) && Allowed(env, call, v, w, e) && Healthy(v.db, env.assumed)
    ensures Healthy(w.db, env.assumed) <==> Passed(v, e, env)
  {
    if e.Some? {
      EndsHealthyExactly(v.db, v.trans.value, w.db, w.trans.value.phase, e.value, env.assumed);
    }
  }

  ghost predicate AllHealthy(views: seq<View>, env: Env, n: nat) {
    n < |views| && forall i :: 0 <= i <= n ==> Healthy(views[i].db, env.assumed)
  }

  ghost predicate AllPassed(views: seq<View>, ends: seq<Option<Ending>>, env: Env, n: nat) {
    n <= |views| && n <= |ends| && forall i :: 0 <= i < n ==> Passed(views[i], ends[i], env)
  }

  /** Over every run that starts healthy: the system is healthy all along if and only if the part that each
      commit carried out passes the checks. */
  lemma {:induction false} RunHealthyExactly(calls: seq<Call>, views: seq<View>, ends: seq<Option<Ending>>, env: Env,
                                             n: nat)
    requires IsRun(calls, views, ends, env) && n <= |calls| && Healthy(views[0].db, env.assumed)
    ensures AllHealthy(views, env, n) <==> AllPassed(views, ends, env, n)
  {
    if n > 0 {
      RunHealthyExactly(calls, views, ends, env, n - 1);
      if AllHealthy(views, env, n - 1) {
        StepHealthyExactly(calls[n - 1], views[n - 1], views[n], ends[n - 1], env);
        OneMore(views, ends, env, n);
      }
    }
  }

  lemma OneMore(views: seq<View>, ends: seq<Option<Ending>>, env: Env, n: nat)
    requires 0 < n < |views| && n <= |ends| && AllHealthy(views, env, n - 1) && AllPassed(views, ends, env, n - 1)
    requires Healthy(views[n].db, env.assumed) <==> Passed(views[n - 1], ends[n - 1], env)
    ensures AllHealthy(views, env, n) <==> AllPassed(views, ends, env, n)
  {}

  // ---------- what certainly passes ----------

  /** A commit that ran to its end; or, without dependency cycles, a pure removal or addition that was
      interrupted, or an addition that failed. */
  ghost predicate Harmless(v: View, e: Ending) {
    && v.trans.Some? && DefaultChecks(v.trans.value.flags)
    && var t := v.trans.value;
       || e == Complete
       || (e.Stop? && t.add == [] && AcyclicCache(v.db))
       || (!e.Complete? && OnlyAdds(v.db, t) && AcyclicWith(v.db, t))
  }

  lemma StopHealthy(v: View, w: View, e: Ending, env: Env)
    requires Sound(v, env.assumed) && Enters(v, w, e) && e != Complete && Harmless(v, e) && Healthy(v.db, env.assumed)
    ensures Healthy(w.db, env.assumed)
  {
    var t := v.trans.value;
    if e.Stop? && t.add == [] && AcyclicCache(v.db) {
      OrderedIfAcyclic(v.db, t);
      RemovalStopsHealthy(v.db, t, env.assumed, e.m);
      assert t.add[..e.n] == [];
    } else {
      assert DependsFirst(t.add);
      AdditionEndsHealthy(v.db, t, e, env);
    }
  }

  lemma AdditionEndsHealthy(db: Cache, t: Trans, e: Ending, env: Env)
    requires IsCache(db) && !t.flags.nodepversion && PlanKeeps(db, t, env.assumed) && PlanAgrees(db, t)
    requires OnlyAdds(db, t) && UniquelyNamed(t.add) && DependsFirst(t.add) && Healthy(db, env.assumed) && Fits(t, e)
    requires e != Complete
    ensures Healthy(Outcome(db, Executed(t, e)), env.assumed)
  {
    assert Removed(db, []) == db;
    AdditionStopsHealthy(db, t, env.assumed, e.n);
    if e.Stop? {
      assert t.remove[..e.m] == [];
    } else {
      FailedAddition(db, t, Outcome(db, Executed(t, e)), e.n, e.left);
      AdditionStopsHealthy(db, t, env.assumed, e.n + 1);
    }
  }

  /** A package that fails to be installed for the first time is recorded or not. */
  lemma FailedAddition(db: Cache, t: Trans, db1: Cache, n: nat, left: Left)
    requires OnlyAdds(db, t) && UniquelyNamed(t.add) && n < |t.add| && db1 == Outcome(db, Executed(t, Failure(n, left)))
    ensures db1 == Installed(db, t.add[..n], t.flags) || db1 == Installed(db, t.add[..n + 1], t.flags)
  {
    assert Removed(db, []) == db;
    var name := t.add[n].name;
    LeftOverIsOutcome(db, t, n, left);
    assert t.add[n] in t.add && !Named(t.add[..n], name);
    NotInstalled(db, t.add[..n], t.flags, name);
    assert t.add[..n + 1][..n] == t.add[..n];
  }

  /** What is harmless passes. */
  lemma HarmlessPasses(call: Call, v: View, w: View, e: Option<Ending>, env: Env)
    requires Sound(v, env.assumed) && Allowed(env, call, v, w, e) && (e.Some? ==> Harmless(v, e.value))
    requires Healthy(v.db, env.assumed)
    ensures Passed(v, e, env) && Healthy(w.db, env.assumed)
  {
    if e.Some? && e.value != Complete {
      StopHealthy(v, w, e.value, env);
    }
    StepHealthyExactly(call, v, w, e, env);
  }

  lemma OrderedIfAcyclic(db: Cache, t: Trans)
    requires RemoveOrdered(db, t) && Taken(t.remove, db) && AcyclicCache(db)
    ensures DependentsFirst(t.remove)
  {
    var pkgs :| RestOf(pkgs, db, t.remove, []) && (Acyclic(t.remove + pkgs) ==> DependentsFirst(t.remove));
    AllOfCache(db, t.remove, pkgs);
  }

  /** What is removed and the rest are all the packages of the cache. */
  lemma AllOfCache(db: Cache, rem: seq<Pkg>, pkgs: seq<Pkg>)
    requires Taken(rem, db) && RestOf(pkgs, db, rem, [])
    ensures RestOf(rem + pkgs, db, [], [])
  {
    forall p ensures p in rem + pkgs <==> p.name in db && db[p.name] == p {
      if p.name in db && db[p.name] == p && Named(rem, p.name) {
        var k :| 0 <= k < |rem| && rem[k].name == p.name;
        assert rem[k] in rem;
      }
    }
  }

  /** Wherever an installation stopped, what it has installed so far has its dependencies, if the packages
      to install and those they may rely on have no cycles. */
  lemma StoppedInstallIsMet(v: View, w: View, e: Ending, env: Env, k: nat, d: Depend)
    requires Sound(v, env.assumed) && Enters(v, w, e) && e.Stop? && DefaultChecks(v.trans.value.flags)
    requires AcyclicWith(v.db, v.trans.value) && k < e.n && d in v.trans.value.add[k].depends
    ensures SatIn(w.db, d) || Provided(d, env.assumed)
  {
    var t := v.trans.value;
    assert t.remove[..e.m] == t.remove;
    InstalledSoFarIsMet(v.db, t, env.assumed, e.n, k, d);
  }

  /** A system that starts without missing dependencies or conflicts never gets any, over every run whose
      commits are harmless. */
  lemma {:induction false} RunHealthy(calls: seq<Call>, views: seq<View>, ends: seq<Option<Ending>>, env: Env, n: nat)
    requires IsRun(calls, views, ends, env) && n <= |calls| && Healthy(views[0].db, env.assumed)
    requires forall i :: 0 <= i < n && ends[i].Some? ==> Harmless(views[i], ends[i].value)
    ensures Healthy(views[n].db, env.assumed)
  {
    if n > 0 {
      RunHealthy(calls, views, ends, env, n - 1);
      HarmlessPasses(calls[n - 1], views[n - 1], views[n], ends[n - 1], env);
    }
  }

  /** Nothing goes wrong while this call lasts: a commit that starts has the default checks, no signal comes, and
      every package can be installed. */
  ghost predicate Undisturbed(call: Call, v: View) {
    call.Commit? && InPhase(v, Prepared) && Starts(v.trans.value, call.o) ==>
      var t := v.trans.value;
      DefaultChecks(t.flags) && Smooth(call.o, t, |t.remove| + |t.add|)
  }

  /** So a system that starts without missing dependencies or conflicts never gets any over an undisturbed run,
      and each commit that starts leaves the outcome of its whole plan. */
  lemma {:induction false} UndisturbedRun(calls: seq<Call>, views: seq<View>, ends: seq<Option<Ending>>, env: Env,
                                          n: nat)
    requires IsRun(calls, views, ends, env) && n <= |calls| && Healthy(views[0].db, env.assumed)
    requires forall i :: 0 <= i < n ==> Undisturbed(calls[i], views[i])
    ensures Healthy(views[n].db, env.assumed)
    ensures forall i :: 0 <= i < n && ends[i].Some? ==>
      views[i].trans.Some? && views[i + 1].db == Outcome(views[i].db, views[i].trans.value)
  {
    forall i | 0 <= i < n && ends[i].Some?
      ensures Harmless(views[i], ends[i].value) && ends[i] == Some(Complete) && Enters(views[i], views[i + 1], Complete)
    {
      assert Allowed(env, calls[i], views[i], views[i + 1], ends[i]) && Undisturbed(calls[i], views[i]);
      OneEnding(calls[i].o, views[i].trans.value, ends[i].value, Complete);
    }
    RunHealthy(calls, views, ends, env, n);
  }
}
