/** The transaction interface (lib/libalpm/trans.c) and the commit loops (lib/libalpm/sync.c, add.c,
    remove.c), with an interrupt possible at every point where the code looks for one. */
module Transaction {
  import opened Packages
  import opened Deps
  import opened Version
  import opened Resolve
  import opened TransSpec
  import opened TransHealth
  import opened TransStop
  import SyncPrepare
  import opened TransPlan

  class Handle {
    const sync: seq<Db>
    const assumed: seq<Depend>
    const ignored: set<string>
    const choose: (Depend, seq<Pkg>) -> int
    var db: Cache
    var trans: Option<Trans>
    var locked: bool

    /** The lock is held exactly during a locking transaction; what is to be removed is installed, and a
        prepared plan fits the cache. */
    ghost predicate Valid()
      reads this
    {
      && IsCache(db) && DbsUnique(sync)
      && (locked <==> trans.Some? && !trans.value.flags.nolock)
      && (trans.Some? ==> UniquelyNamed(trans.value.add) && UniquelyNamed(trans.value.remove))
      && (trans.Some? && trans.value.phase in {Initialized, Prepared} ==> Taken(trans.value.remove, db))
      && (trans.Some? && trans.value.phase == Prepared ==> PlanOk(db, trans.value, assumed))
    }

    constructor (sync: seq<Db>, assumed: seq<Depend>, ignored: set<string>, choose: (Depend, seq<Pkg>) -> int,
                 db: Cache)
      requires IsCache(db) && DbsUnique(sync)
      ensures Valid() && this.db == db && trans == None
    {
      this.sync, this.assumed, this.ignored, this.choose, this.db := sync, assumed, ignored, choose, db;
      trans, locked := None, false;
    }

    /** alpm_trans_init; `free` says whether the lock can be had. */
    method Init(flags: Flags, free: bool) returns (ret: int)
      requires Valid()
      modifies this`trans, this`locked
      ensures Valid()
      ensures if old(trans) == None && (flags.nolock || free)
              then ret == 0 && trans == Some(Trans(flags, Initialized, [], [], map[]))
                else ret == -1 && trans == old(trans) && locked == old(locked)
    {
      if trans != None {
        return -1;
      }
      if !flags.nolock {
        if !free {
          return -1;
        }
        locked := true;
      }
      trans := Some(Trans(flags, Initialized, [], [], map[]));
      ret := 0;
    }

    /** Targets may be changed. */
    ghost predicate Open()
      reads this
    {
      trans.Some? && trans.value.phase == Initialized
    }

    /** The version of the package that is installed is this one, and that is enough. */
    ghost predicate Skipped(pkg: Pkg)
      reads this
      requires trans.Some?
    {
      pkg.name in db && trans.value.flags.needed && VerCmp(Some(pkg.version), Some(db[pkg.name].version)) == 0
    }

    /** alpm_add_pkg */
    method AddPkg(pkg: Pkg) returns (ret: int)
      requires Valid()
      modifies this`trans
      ensures Valid()
      ensures !old(Open()) ==> ret == -1 && trans == old(trans)
      ensures old(Open()) && Named(old(trans).value.add, pkg.name) ==>
        trans == old(trans) && ret == if pkg.(reason := Explicit) in old(trans).value.add then 0 else -1
      ensures old(Open()) && !Named(old(trans).value.add, pkg.name) ==> ret == 0
      ensures old(Open()) && !Named(old(trans).value.add, pkg.name) ==> trans == if old(Skipped(pkg)) then old(trans)
        else Some(old(trans).value.(add := old(trans).value.add + [pkg.(reason := Explicit)]))
    {
      if trans == None || trans.value.phase != Initialized {
        return -1;
      }
      var t := trans.value;
      var dup := FindPkg(t.add, pkg.name);
      if dup != None {
        if pkg.(reason := Explicit) in t.add { SameName(t.add, pkg.(reason := Explicit), dup.value); }
        return if dup.value == pkg.(reason := Explicit) then 0 else -1;
      }
      if pkg.name in db && t.flags.needed && VerCmp(Some(pkg.version), Some(db[pkg.name].version)) == 0 {
        return 0;
      }
      trans := Some(t.(add := t.add + [pkg.(reason := Explicit)]));
      ret := 0;
    }

    /** alpm_remove_pkg of an installed package */
    method RemovePkg(name: string) returns (ret: int)
      requires Valid()
      modifies this`trans
      ensures Valid()
      ensures !old(Open()) || name !in db ==> ret == -1 && trans == old(trans)
      ensures old(Open()) && name in db ==> ret == 0 && trans == if Named(old(trans).value.remove, name) then old(trans)
        else Some(old(trans).value.(remove := old(trans).value.remove + [db[name]]))
    {
      if trans == None || trans.value.phase != Initialized || name !in db {
        return -1;
      }
      var t := trans.value;
      if !Named(t.remove, name) {
        trans := Some(t.(remove := t.remove + [db[name]]));
      }
      ret := 0;
    }

    /** The packages of the cache. */
    method Listing() returns (local: seq<Pkg>)
      requires IsCache(db)
      ensures Lists(local, db)
    {
      local := [];
      var todo := db.Keys;
      while todo != {}
        invariant todo <= db.Keys && UniquelyNamed(local)
        invariant forall p :: p in local <==> p.name in db && p.name !in todo && db[p.name] == p
        decreases |todo|
      {
        var n :| n in todo;
        local, todo := local + [db[n]], todo - {n};
      }
    }

    ghost function ConfigOf(local: seq<Pkg>, f: Flags): (cfg: Config) {
      Config(sync := sync, local := local, assumed := assumed, nodepversion := f.nodepversion,
             ignored := ignored, choose := choose)
    }

    /** The plan u does what the request t asks for. */
    ghost predicate Answers(replaced: map<Pkg, seq<string>>, ans: SyncPrepare.Replies, t: Trans, u: Trans)
      reads this
    {
      && IsCache(db)
      && exists local :: Lists(local, db) && Requested(ConfigOf(local, t.flags), Replacing(db, replaced), ans, t, u)
    }

    /** There is a reason not to do what the request t asks for. */
    ghost predicate Refuses(replaced: map<Pkg, seq<string>>, ans: SyncPrepare.Replies, t: Trans, u: Trans, why: Why)
      reads this
    {
      && IsCache(db)
      && exists local :: Lists(local, db) && Refused(ConfigOf(local, t.flags), Replacing(db, replaced), ans, t, u, why)
    }

    /** alpm_trans_prepare; `replaced` names the installed packages that each package to install replaces, arch says
        whether all targets are of the right architecture. */
    method Prepare(replaced: map<Pkg, seq<string>>, ans: SyncPrepare.Replies, arch: bool) returns (ret: int, why: Why)
      requires Valid()
      modifies this`trans
      ensures Valid() && (ret == 0 || ret == -1)
      ensures !old(Open()) ==> ret == -1 && trans == old(trans)
      ensures old(Open()) && old(trans).value.add == [] && old(trans).value.remove == [] ==>
        ret == 0 && trans == old(trans)
      ensures old(Open()) && (old(trans).value.add != [] || old(trans).value.remove != []) && !arch ==>
        ret == -1 && trans == old(trans)
      ensures old(Open()) && (old(trans).value.add != [] || old(trans).value.remove != []) && arch ==>
        && trans.Some? && trans.value.flags == old(trans).value.flags
        && if ret == 0 then trans.value.phase == Prepared && Answers(replaced, ans, old(trans).value, trans.value)
           else trans.value.phase == Initialized && Refuses(replaced, ans, old(trans).value, trans.value, why)
      ensures old(Open()) && ret == 0 ==> forall a, name ::
        a in trans.value.add && a in replaced && name in replaced[a] && name in db ==> Named(trans.value.remove, name)
    {
      why := Granted;
      if trans == None || trans.value.phase != Initialized {
        return -1, why;
      }
      if trans.value.add == [] && trans.value.remove == [] {
        return 0, why;
      }
      if !arch {
        return -1, why;
      }
      var local := Listing();
      var cfg := Config(sync, local, assumed, trans.value.flags.nodepversion, ignored, choose);
      ghost var t0 := trans.value;
      var ok, t;
      ok, t, why := Plan(db, cfg, trans.value, Replacing(db, replaced), ans);
      trans := Some(t);
      ret := if ok then 0 else -1;
      forall a, name | ok && a in t.add && a in replaced && name in replaced[a] && name in db
        ensures Named(t.remove, name)
      {
        ReplacedGo(db, cfg, replaced, ans, t0, t, a, name);
      }
    }

    /** alpm_trans_release */
    method Release() returns (ret: int)
      requires Valid()
      modifies this`trans, this`locked
      ensures Valid() && trans == None && !locked
      ensures ret == 0 <==> old(trans) != None
    {
      if trans == None {
        return -1;
      }
      if !trans.value.flags.nolock {
        locked := false;
      }
      trans := None;
      ret := 0;
    }

    // ---------- commit ----------

    /** alpm_trans_interrupt: only a commit can be interrupted. */
    method SetInterrupted() returns (ret: int)
      requires Valid()
      modifies this`trans
      ensures Valid()
      ensures if old(trans).Some? && old(trans).value.phase in {Committing, Interrupted}
              then ret == 0 && trans == Some(old(trans).value.(phase := Interrupted))
                else ret == -1 && trans == old(trans)
    {
      if trans == None || trans.value.phase !in {Committing, Interrupted} {
        return -1;
      }
      trans := Some(trans.value.(phase := Interrupted));
      ret := 0;
    }

    /** The code looks for an interrupt; a signal handler may have called alpm_trans_interrupt since it last did. */
    method Poll(signal: bool) returns (interrupted: bool)
      requires Valid() && trans.Some? && trans.value.phase in {Committing, Interrupted}
      modifies this`trans
      ensures Valid() && trans.Some?
      ensures interrupted <==> signal || old(trans).value.phase == Interrupted
      ensures trans == Some(old(trans).value.(phase := if interrupted then Interrupted else Committing))
    {
      if signal {
        var ret := SetInterrupted();
      }
      interrupted := trans.value.phase == Interrupted;
    }

    /** _alpm_remove_packages: removes the packages one by one until interrupted. */
    method RemovePackages(o: Outside) returns (ghost m: nat)
      requires Valid() && trans.Some? && trans.value.phase == Committing
      modifies this`db, this`trans
      ensures Valid() && trans.Some? && trans == Some(old(trans).value.(phase := trans.value.phase))
      ensures m <= |trans.value.remove| && db == Removed(old(db), trans.value.remove[..m])
      ensures forall k :: 0 <= k < m ==> !o.signal(k)
      ensures if m == |trans.value.remove| then trans.value.phase == Committing
              else trans.value.phase == Interrupted && o.signal(m)
    {
      var remove := trans.value.remove;
      var i := 0;
      while i < |remove|
        invariant i <= |remove| && Valid() && trans == old(trans)
        invariant db == Removed(old(db), remove[..i])
        invariant forall k :: 0 <= k < i ==> !o.signal(k)
      {
        var interrupted := Poll(o.signal(i));
        if interrupted {
          return i;
        }
        assert remove[..i + 1][..i] == remove[..i];
        db := db - {remove[i].name};
        i := i + 1;
      }
      m := i;
    }

    /** commit_single_pkg: the effect on the cache. Reading the package, extracting its files and writing
        its database entry may each fail. */
    method CommitSinglePkg(p: Pkg, o: Outside) returns (ret: int, ghost left: Left)
      requires Valid() && trans.Some? && trans.value.phase == Committing && Recorded(db, trans.value, p)
      modifies this`db
      ensures Valid()
      ensures ret == if Installs(o, p) then 0 else -1
      ensures db == LeftOver(old(db), p, trans.value.flags, left) && (left == Stored <==> o.opens(p) && o.writes(p))
      ensures left == Without ==> db == old(db) - {p.name}
      ensures ret == 0 ==> p.name in db && db - {p.name} == old(db) - {p.name}
      ensures ret == 0 ==> db[p.name] == p.(reason := db[p.name].reason)
      ensures ret == 0 && trans.value.flags.alldeps ==> db[p.name].reason == AsDependency
      ensures ret == 0 && !trans.value.flags.alldeps && trans.value.flags.allexplicit ==> db[p.name].reason == Explicit
      ensures ret == 0 && !trans.value.flags.alldeps && !trans.value.flags.allexplicit ==>
        db[p.name].reason == if p.name in old(db) then old(db)[p.name].reason else p.reason
    {
      var oldpkg := if p.name in db then Lookup(trans.value.oldpkgs, p.name) else None;
      var newpkg := Stamp(p, oldpkg, trans.value.flags);
      if oldpkg != None {
        db := db - {oldpkg.value.name};
      }
      if !o.opens(p) {
        return -1, Without;
      }
      var errors := !o.extracts(p);
      if !o.writes(p) {
        return -1, Without;
      }
      assert newpkg.name !in db;
      db := db[newpkg.name := newpkg];
      ret, left := if errors then -1 else 0, Stored;
    }

    /** The next package, unless there was an interrupt; a failure counts as one. */
    method InstallNext(i: nat, o: Outside) returns (ret: int, more: bool, ghost left: Left)
      requires Valid() && trans.Some? && trans.value.phase in {Committing, Interrupted}
      requires i < |trans.value.add| && Recorded(db, trans.value, trans.value.add[i])
      modifies this`db, this`trans
      ensures Valid() && trans.Some? && (ret == 0 || ret == -1)
      ensures trans == Some(old(trans).value.(phase := if more then Committing else Interrupted))
      ensures !more && ret == 0 <==> old(trans).value.phase == Interrupted || o.signal(|trans.value.remove| + i)
      ensures !more && ret == 0 ==> db == old(db)
      ensures more ==>
        ret == 0 && Installs(o, trans.value.add[i]) && db == WithPkg(old(db), trans.value.add[i], trans.value.flags)
      ensures ret != 0 ==>
        && !Installs(o, trans.value.add[i])
        && db == LeftOver(old(db), trans.value.add[i], trans.value.flags, left)
        && (left == Stored <==> o.opens(trans.value.add[i]) && o.writes(trans.value.add[i]))
    {
      var interrupted := Poll(o.signal(|trans.value.remove| + i));
      if interrupted {
        return 0, false, Without;
      }
      ret, left := CommitSinglePkg(trans.value.add[i], o);
      more := ret == 0;
      if ret != 0 {
        trans := Some(trans.value.(phase := Interrupted));
      }
    }

    /** The first i packages of the plan t are installed, and nothing went wrong. */
    ghost predicate Halfway(o: Outside, db0: Cache, t: Trans, i: nat)
      reads this
    {
      && Valid() && trans == Some(t) && t.phase in {Committing, Interrupted} && i <= |t.add|
      && db == Installed(db0, t.add[..i], t.flags)
      && (if t.phase == Committing then Smooth(o, t, |t.remove| + i) else i == 0)
      && AllRecorded(db, t, i)
    }

    /** The first n packages of the plan t are installed, and the next one was not: because of an interrupt or,
        with ret != 0, because it failed. */
    ghost predicate Halted(o: Outside, db0: Cache, t: Trans, ret: int, n: nat, left: Left)
      reads this
    {
      && Valid() && trans == Some(t.(phase := Interrupted)) && n < |t.add| && (ret == 0 || ret == -1)
      && (t.phase == Interrupted ==> ret == 0 && n == 0)
      && (ret == 0 ==> db == Installed(db0, t.add[..n], t.flags))
      && (ret == 0 && t.phase == Committing ==> Smooth(o, t, |t.remove| + n) && o.signal(|t.remove| + n))
      && (ret != 0 ==>
            && Brings(o, t, Failure(n, left))
            && db == LeftOver(Installed(db0, t.add[..n], t.flags), t.add[n], t.flags, left))
    }

    method InstallAt(ghost db0: Cache, ghost t: Trans, i: nat, o: Outside)
      returns (ret: int, more: bool, ghost left: Left)
      requires i < |t.add| && Halfway(o, db0, t, i)
      modifies this`db, this`trans
      ensures if more then ret == 0 && Halfway(o, db0, t, i + 1) else Halted(o, db0, t, ret, i, left)
    {
      ret, more, left := InstallNext(i, o);
      if more {
        OneMoreInstalled(db0, o, t, i);
      }
    }

    /** _alpm_upgrade_packages: installs the packages one by one until interrupted. */
    method UpgradePackages(o: Outside) returns (ret: int, ghost n: nat, ghost left: Left)
      requires trans.Some? && Halfway(o, db, trans.value, 0)
      modifies this`db, this`trans
      ensures if n == |old(trans).value.add| then ret == 0 && Halfway(o, old(db), old(trans).value, n)
              else Halted(o, old(db), old(trans).value, ret, n, left)
    {
      ghost var t := trans.value;
      var count := |trans.value.add|;
      ret, n, left := 0, 0, Without;
      for i := 0 to count
        invariant ret == 0 && n == i && Halfway(o, old(db), t, i)
      {
        var more;
        ret, more, left := InstallAt(old(db), t, i, o);
        if !more {
          return;
        }
        n := i + 1;
      }
    }

    /** The removals of the plan are over: m of them are done, and there was no signal or no more. */
    ghost predicate Cleared(o: Outside, db0: Cache, m: nat)
      reads this
    {
      && Valid() && trans.Some? && m <= |trans.value.remove| && db == Removed(db0, trans.value.remove[..m])
      && Smooth(o, trans.value, m)
      && (if m == |trans.value.remove| then trans.value.phase == Committing
          else trans.value.phase == Interrupted && o.signal(m))
    }

    method InstallRest(o: Outside, ghost db0: Cache, ghost m: nat) returns (ret: int, ghost e: Ending)
      requires Cleared(o, db0, m)
      requires AllRecorded(db, trans.value, 0)
      modifies this`db, this`trans
      ensures Valid() && trans.Some? && trans == Some(old(trans).value.(phase := trans.value.phase))
      ensures trans.value.phase == if e == Complete then Committing else Interrupted
      ensures Brings(o, old(trans).value, e) && ret == if e.Failure? then -1 else 0
      ensures db == Outcome(db0, Executed(old(trans).value, e))
    {
      ghost var n, left := 0, Without;
      ghost var t := trans.value;
      assert t.add[..0] == [] && t.remove[..|t.remove|] == t.remove;
      ret := 0;
      if trans.value.add != [] {
        assert Halfway(o, db, trans.value, 0);
        ret, n, left := UpgradePackages(o);
      }
      e := CameSoFar(db0, db, t, o, m, n, ret != 0, left);
    }

    /** The commit phase: the removals and then, if there are any, the installs (_alpm_sync_commit). */
    method Execute(o: Outside) returns (ret: int, ghost e: Ending)
      requires Valid() && trans.Some? && trans.value.phase == Committing
      requires AllRecorded(db, trans.value, 0)
      modifies this`db, this`trans
      ensures Valid() && trans.Some? && trans == Some(old(trans).value.(phase := trans.value.phase))
      ensures trans.value.phase == if e == Complete then Committing else Interrupted
      ensures Brings(o, old(trans).value, e) && ret == if e.Failure? then -1 else 0
      ensures db == Outcome(old(db), Executed(old(trans).value, e))
    {
      ghost var m := RemovePackages(o);
      ghost var t := trans.value;
      StillRecorded(old(db), t, m);
      ret, e := InstallRest(o, old(db), m);
      AnyPhase(o, old(db), t, e, Committing);
    }

    /** What alpm_trans_commit looks at first: whether to enter the commit phase, and else what to return. */
    method MayCommit(o: Outside) returns (ret: int, go: bool)
      requires Valid()
      ensures go <==> trans.Some? && trans.value.phase == Prepared && Starts(trans.value, o)
      ensures !go ==> ret == if trans.Some? && trans.value.phase == Prepared && Idles(trans.value, o) then 0 else -1
    {
      if trans == None || trans.value.phase != Prepared || trans.value.flags.nolock {
        return -1, false;
      }
      var t := trans.value;
      if t.add == [] && t.remove == [] {
        return 0, false;
      }
      if t.add != [] {
        if !o.loads {
          return -1, false;
        }
        if t.flags.downloadonly {
          return 0, false;
        }
        if !o.checks {
          return -1, false;
        }
      }
      if !t.flags.nohooks && !o.hooks {
        return -1, false;
      }
      return 0, true;
    }

    method Begin()
      requires Valid() && trans.Some? && trans.value.phase == Prepared
      modifies this`trans
      ensures Valid() && trans == Some(old(trans).value.(phase := Committing)) && AllRecorded(db, old(trans).value, 0)
    {
      assert forall k :: 0 <= k < |trans.value.add| ==> trans.value.add[k] in trans.value.add;
      trans := Some(trans.value.(phase := Committing));
    }

    method CommitPhase(o: Outside, ghost t: Trans) returns (ret: int, done: bool, ghost e: Ending)
      requires Valid() && trans == Some(t.(phase := Committing)) && AllRecorded(db, t, 0)
      modifies this`db, this`trans
      ensures Valid() && trans.Some? && trans == Some(t.(phase := trans.value.phase))
      ensures EndsAs(old(db), t, db, trans.value.phase, e)
      ensures Brings(o, t, e) && ret == if e.Failure? then -1 else 0
      ensures done <==> e == Complete && !o.signal(|t.remove| + |t.add|)
    {
      ret, e := Execute(o);
      AnyPhase(o, old(db), t, e, Committing);
      done := false;
      if ret == 0 {
        var interrupted := Poll(o.signal(|trans.value.remove| + |trans.value.add|));
        done := !interrupted;
        trans := Some(trans.value.(phase := Committed));
      }
    }

    /** alpm_trans_commit: `e` says how the commit phase ended if it was entered, and `done` whether the
        transaction was reported as completed. */
    method Commit(o: Outside) returns (ret: int, done: bool, ghost e: Option<Ending>)
      requires Valid()
      modifies this`db, this`trans
      ensures Valid() && locked == old(locked)
      ensures e.Some? <==> old(trans).Some? && old(trans).value.phase == Prepared && Starts(old(trans).value, o)
      ensures e == None ==> db == old(db) && trans == old(trans)
      ensures e == None ==>
        ret == if old(trans).Some? && old(trans).value.phase == Prepared && Idles(old(trans).value, o) then 0 else -1
      ensures e.Some? ==> trans.Some? && trans == Some(old(trans).value.(phase := trans.value.phase))
      ensures e.Some? ==> EndsAs(old(db), old(trans).value, db, trans.value.phase, e.value)
      ensures e.Some? ==> Brings(o, old(trans).value, e.value) && ret == if e.value.Failure? then -1 else 0
      ensures done <==> e == Some(Complete) && !o.signal(|old(trans).value.remove| + |old(trans).value.add|)
    {
      var go;
      ret, go := MayCommit(o);
      e, done := None, false;
      if go {
        ghost var t := trans.value;
        Begin();
        ghost var ending;
        ret, done, ending := CommitPhase(o, t);
        e := Some(ending);
      }
    }
  }
}
