/** What a transaction does to the package cache (lib/libalpm/trans.c, add.c, remove.c), as functions on
    maps from names to packages. */
module TransSpec {
  import opened Packages
  import opened Deps

  type Cache = map<string, Pkg>

  datatype Flags = Flags(nolock: bool, nodeps: bool, noconflicts: bool, nodepversion: bool, downloadonly: bool,
                         nohooks: bool, alldeps: bool, allexplicit: bool,
                         cascade: bool, recurse: bool, recurseall: bool, unneeded: bool, needed: bool)

  datatype Phase = Initialized | Prepared | Committing | Committed | Interrupted

  /** A transaction; oldpkgs holds, for a package to install, the version installed at preparation. */
  datatype Trans = Trans(flags: Flags, phase: Phase, add: seq<Pkg>, remove: seq<Pkg>, oldpkgs: Cache)

  ghost predicate IsCache(db: Cache) {
    forall n :: n in db ==> db[n].name == n
  }

  /** The cache after removing packages by name, one after the other. */
  function Removed(db: Cache, rem: seq<Pkg>): (r: Cache) {
    if rem == [] then db else Removed(db, rem[..|rem| - 1]) - {rem[|rem| - 1].name}
  }

  /** The reason a package is recorded with: that of the version it replaces, unless a flag says otherwise. */
  function Stamp(p: Pkg, was: Option<Pkg>, f: Flags): (r: Pkg) {
    p.(reason := if f.alldeps then AsDependency else if f.allexplicit then Explicit
                 else if was.Some? then was.value.reason else p.reason)
  }

  function WithPkg(db: Cache, p: Pkg, f: Flags): (r: Cache) {
    db[p.name := Stamp(p, Lookup(db, p.name), f)]
  }

  /** The cache after installing packages, one after the other. */
  function Installed(db: Cache, add: seq<Pkg>, f: Flags): (r: Cache) {
    if add == [] then db else WithPkg(Installed(db, add[..|add| - 1], f), add[|add| - 1], f)
  }

  lemma {:induction false} RemovedLookup(db: Cache, rem: seq<Pkg>, name: string)
    ensures Lookup(Removed(db, rem), name) == if Named(rem, name) then None else Lookup(db, name)
  {
    if rem != [] {
      var n := |rem| - 1;
      RemovedLookup(db, rem[..n], name);
      assert forall k :: 0 <= k < n ==> rem[..n][k] == rem[k];
    }
  }

  lemma {:induction false} InstalledLookup(db: Cache, add: seq<Pkg>, f: Flags, k: nat)
    requires UniquelyNamed(add) && k < |add|
    ensures Lookup(Installed(db, add, f), add[k].name) == Some(Stamp(add[k], Lookup(db, add[k].name), f))
  {
    var n := |add| - 1;
    if k < n {
      InstalledLookup(db, add[..n], f, k);
    } else {
      assert forall j :: 0 <= j < n ==> add[..n][j] == add[j];
      NotInstalled(db, add[..n], f, add[k].name);
    }
  }

  lemma {:induction false} NotInstalled(db: Cache, add: seq<Pkg>, f: Flags, name: string)
    requires !Named(add, name)
    ensures Lookup(Installed(db, add, f), name) == Lookup(db, name)
  {
    if add != [] {
      var n := |add| - 1;
      assert forall j :: 0 <= j < n ==> add[..n][j] == add[j];
      NotInstalled(db, add[..n], f, name);
    }
  }

  /** Whether versions count makes no difference to what is installed. */
  lemma {:induction false} InstalledStrict(db: Cache, add: seq<Pkg>, f: Flags)
    ensures Installed(db, add, f.(nodepversion := false)) == Installed(db, add, f)
  {
    if add != [] {
      InstalledStrict(db, add[..|add| - 1], f);
    }
  }

  /** The cache after a complete commit. */
  function Outcome(db: Cache, t: Trans): (r: Cache) {
    Installed(Removed(db, t.remove), t.add, t.flags)
  }

  /** A complete commit leaves the old cache without the removals, overridden by the installs. */
  lemma OutcomeOverrides(db: Cache, t: Trans)
    requires UniquelyNamed(t.add)
    ensures forall k :: 0 <= k < |t.add| ==>
      Lookup(Outcome(db, t), t.add[k].name)
      == Some(Stamp(t.add[k], if Named(t.remove, t.add[k].name) then None else Lookup(db, t.add[k].name), t.flags))
    ensures forall name :: !Named(t.add, name) ==>
      Lookup(Outcome(db, t), name) == if Named(t.remove, name) then None else Lookup(db, name)
  {
    var db1 := Removed(db, t.remove);
    forall k | 0 <= k < |t.add|
      ensures Lookup(Outcome(db, t), t.add[k].name)
        == Some(Stamp(t.add[k], if Named(t.remove, t.add[k].name) then None else Lookup(db, t.add[k].name), t.flags))
    {
      InstalledLookup(db1, t.add, t.flags, k);
      RemovedLookup(db, t.remove, t.add[k].name);
    }
    forall name | !Named(t.add, name)
      ensures Lookup(Outcome(db, t), name) == if Named(t.remove, name) then None else Lookup(db, name)
    {
      NotInstalled(db1, t.add, t.flags, name);
      RemovedLookup(db, t.remove, name);
    }
  }

  /** What is recorded of an installed package: all of it but the reason. That is the one a flag forces or, without
      such a flag, the one of the version it takes the place of; only a package that is new brings its own. */
  lemma ReasonRecorded(db: Cache, t: Trans, k: nat)
    requires UniquelyNamed(t.add) && k < |t.add|
    ensures var p, q := t.add[k], Lookup(Outcome(db, t), t.add[k].name);
      && q.Some? && q.value == p.(reason := q.value.reason)
      && (t.flags.alldeps ==> q.value.reason == AsDependency)
      && (!t.flags.alldeps && t.flags.allexplicit ==> q.value.reason == Explicit)
      && (!t.flags.alldeps && !t.flags.allexplicit && p.name in db && !Named(t.remove, p.name) ==>
            q.value.reason == db[p.name].reason)
      && (!t.flags.alldeps && !t.flags.allexplicit && (p.name !in db || Named(t.remove, p.name)) ==>
            q.value.reason == p.reason)
  {
    OutcomeOverrides(db, t);
  }

  // ---------- how a commit ends ----------

  /** What a failed install leaves: the package is not there, in either version, or it is recorded. */
  datatype Left = Without | Stored

  function LeftOver(db: Cache, p: Pkg, f: Flags, left: Left): (r: Cache) {
    match left
    case Without => db - {p.name}
    case Stored => WithPkg(db, p, f)
  }

  datatype Ending = Complete | Stop(m: nat, n: nat) | Failure(n: nat, left: Left)

  /** The steps that an ending refers to are there, and nothing is installed before the last removal. */
  predicate Fits(t: Trans, e: Ending) {
    match e
    case Complete => true
    case Stop(m, n) => m <= |t.remove| && n <= |t.add| && (n > 0 ==> m == |t.remove|)
    case Failure(n, _) => n < |t.add|
  }

  /** The part of the plan that was carried out. */
  function Executed(t: Trans, e: Ending): (u: Trans)
    requires Fits(t, e)
  {
    match e
    case Complete => t
    case Stop(m, n) => t.(remove := t.remove[..m], add := t.add[..n])
    case Failure(n, Without) => t.(add := t.add[..n], remove := t.remove + [t.add[n]])
    case Failure(n, Stored) => t.(add := t.add[..n + 1])
  }

  /** What a commit meets outside the library: whether the packages are loaded and pass the checks, whether the hooks
      succeed, whether a signal has come when the code looks for one the k-th time, and which packages can be read,
      extracted and recorded. */
  datatype Outside = Outside(loads: bool, checks: bool, hooks: bool, signal: nat -> bool, opens: Pkg -> bool,
                             extracts: Pkg -> bool, writes: Pkg -> bool)

  predicate Installs(o: Outside, p: Pkg) {
    o.opens(p) && o.extracts(p) && o.writes(p)
  }

  /** Before step k of the plan, of which the removals come first, no signal came and no install failed. */
  ghost predicate Smooth(o: Outside, t: Trans, k: nat) {
    && (forall i :: 0 <= i < k ==> !o.signal(i))
    && (forall i :: 0 <= i < |t.add| && |t.remove| + i < k ==> Installs(o, t.add[i]))
  }

  /** The plan remembers the version of p that is installed. */
  predicate Recorded(db: Cache, t: Trans, p: Pkg) {
    p.name in db ==> p.name in t.oldpkgs && t.oldpkgs[p.name] == db[p.name]
  }

  ghost predicate AllRecorded(db: Cache, t: Trans, i: nat) {
    forall k :: i <= k < |t.add| ==> Recorded(db, t, t.add[k])
  }

  lemma StillRecorded(db: Cache, t: Trans, m: nat)
    requires m <= |t.remove| && AllRecorded(db, t, 0)
    ensures AllRecorded(Removed(db, t.remove[..m]), t, 0)
  {
    forall k | 0 <= k < |t.add| ensures Recorded(Removed(db, t.remove[..m]), t, t.add[k]) {
      RemovedLookup(db, t.remove[..m], t.add[k].name);
    }
  }

  lemma OneMoreInstalled(db: Cache, o: Outside, t: Trans, i: nat)
    requires i < |t.add| && Smooth(o, t, |t.remove| + i) && !o.signal(|t.remove| + i) && Installs(o, t.add[i])
    requires UniquelyNamed(t.add) && AllRecorded(Installed(db, t.add[..i], t.flags), t, i)
    ensures Smooth(o, t, |t.remove| + i + 1)
    ensures Installed(db, t.add[..i + 1], t.flags) == WithPkg(Installed(db, t.add[..i], t.flags), t.add[i], t.flags)
    ensures AllRecorded(Installed(db, t.add[..i + 1], t.flags), t, i + 1)
  {
    assert t.add[..i + 1][..i] == t.add[..i];
  }

  /** The commit phase ends so: at the first signal or at the first install that fails, or not before its end. */
  ghost predicate Brings(o: Outside, t: Trans, e: Ending) {
    match e
    case Complete => Smooth(o, t, |t.remove| + |t.add|)
    case Stop(m, n) =>
      Fits(t, e) && m + n < |t.remove| + |t.add| && Smooth(o, t, m + n) && o.signal(m + n)
    case Failure(n, left) =>
      && Fits(t, e) && Smooth(o, t, |t.remove| + n) && !o.signal(|t.remove| + n) && !Installs(o, t.add[n])
      && (left == Stored <==> o.opens(t.add[n]) && o.writes(t.add[n]))
  }

  /** A prepared transaction enters the commit phase: it holds the lock, has something to do, and what comes before
      succeeds. */
  predicate Starts(t: Trans, o: Outside) {
    && !t.flags.nolock && (t.add != [] || t.remove != [])
    && (t.add != [] ==> o.loads && !t.flags.downloadonly && o.checks) && (t.flags.nohooks || o.hooks)
  }

  /** It succeeds without: there is nothing to do, or only something to download. */
  predicate Idles(t: Trans, o: Outside) {
    !t.flags.nolock && if t.add == [] then t.remove == [] else o.loads && t.flags.downloadonly
  }

  /** The phase makes no difference to how it ends and to what it leaves. */
  lemma AnyPhase(o: Outside, db: Cache, t: Trans, e: Ending, p: Phase)
    requires Fits(t, e)
    ensures Brings(o, t.(phase := p), e) <==> Brings(o, t, e)
    ensures Outcome(db, Executed(t.(phase := p), e)) == Outcome(db, Executed(t, e))
  {
    BringsAnyPhase(o, t, e, p);
    OutcomeAnyPhase(db, t, e, p);
  }

  lemma BringsAnyPhase(o: Outside, t: Trans, e: Ending, p: Phase)
    ensures Brings(o, t.(phase := p), e) <==> Brings(o, t, e)
  {}

  lemma OutcomeAnyPhase(db: Cache, t: Trans, e: Ending, p: Phase)
    requires Fits(t, e)
    ensures Outcome(db, Executed(t.(phase := p), e)) == Outcome(db, Executed(t, e))
  {
    SameSteps(db, Executed(t.(phase := p), e), Executed(t, e));
  }

  lemma SameSteps(db: Cache, t: Trans, u: Trans)
    requires t.add == u.add && t.remove == u.remove && t.flags == u.flags
    ensures Outcome(db, t) == Outcome(db, u)
  {}

  /** It goes no further than it ends. */
  lemma GoesNoFurther(o: Outside, t: Trans, e: Ending, k: nat)
    requires Brings(o, t, e) && StepsOf(t, e) < k <= |t.remove| + |t.add|
    ensures !Smooth(o, t, k)
  {}

  /** What happens outside decides how the commit phase ends. */
  lemma OneEnding(o: Outside, t: Trans, e: Ending, e': Ending)
    requires Brings(o, t, e) && Brings(o, t, e')
    ensures e == e'
  {
    if StepsOf(t, e) < StepsOf(t, e') { GoesNoFurther(o, t, e, StepsOf(t, e')); }
    if StepsOf(t, e') < StepsOf(t, e) { GoesNoFurther(o, t, e', StepsOf(t, e)); }
  }

  /** And that one way is always there. */
  lemma SomeEnding(o: Outside, t: Trans) returns (e: Ending)
    ensures Brings(o, t, e)
  {
    var k := 0;
    while k < |t.remove| + |t.add| && !o.signal(k) && (|t.remove| <= k ==> Installs(o, t.add[k - |t.remove|]))
      invariant k <= |t.remove| + |t.add| && Smooth(o, t, k)
    {
      k := k + 1;
    }
    if k == |t.remove| + |t.add| {
      e := Complete;
    } else if o.signal(k) {
      e := if k <= |t.remove| then Stop(k, 0) else Stop(|t.remove|, k - |t.remove|);
    } else {
      var p := t.add[k - |t.remove|];
      e := Failure(k - |t.remove|, if o.opens(p) && o.writes(p) then Stored else Without);
    }
  }

  /** How many steps were carried out. */
  function StepsOf(t: Trans, e: Ending): (k: nat) {
    match e
    case Complete => |t.remove| + |t.add|
    case Stop(m, n) => m + n
    case Failure(n, _) => |t.remove| + n
  }

  /** The commit ended so: with the outcome of the part that was carried out. */
  ghost predicate EndsAs(db0: Cache, t: Trans, db1: Cache, phase: Phase, e: Ending) {
    Fits(t, e) && db1 == Outcome(db0, Executed(t, e)) && phase == if e.Failure? then Interrupted else Committed
  }

  /** How far the removals and the installs came says how the commit phase ends. */
  lemma CameSoFar(db0: Cache, db1: Cache, t: Trans, o: Outside, m: nat, n: nat, failed: bool, left: Left)
    returns (e: Ending)
    requires UniquelyNamed(t.add) && m <= |t.remove| && n <= |t.add| && Smooth(o, t, m)
    requires m < |t.remove| ==> o.signal(m) && !failed && n == 0
    requires !failed && m == |t.remove| ==>
      Smooth(o, t, |t.remove| + n) && (n < |t.add| ==> o.signal(|t.remove| + n))
    requires !failed ==> db1 == Installed(Removed(db0, t.remove[..m]), t.add[..n], t.flags)
    requires failed ==>
      && m == |t.remove| && Brings(o, t, Failure(n, left))
      && db1 == LeftOver(Installed(Removed(db0, t.remove), t.add[..n], t.flags), t.add[n], t.flags, left)
    ensures Brings(o, t, e) && Fits(t, e) && db1 == Outcome(db0, Executed(t, e)) && (failed <==> e.Failure?)
    ensures e == Complete <==> !failed && m == |t.remove| && n == |t.add|
  {
    assert t.remove[..|t.remove|] == t.remove && t.add[..|t.add|] == t.add;
    if failed {
      e := Failure(n, left);
      LeftOverIsOutcome(db0, t, n, left);
    } else {
      e := if m == |t.remove| && n == |t.add| then Complete else Stop(m, n);
    }
  }

  /** Losing the old version of a package is the same as having removed it before the others were installed. */
  lemma WithoutIsRemoved(db: Cache, t: Trans, n: nat)
    requires UniquelyNamed(t.add) && n < |t.add|
    ensures Outcome(db, Executed(t, Failure(n, Without))) == Outcome(db, t.(add := t.add[..n])) - {t.add[n].name}
  {
    var x, y := Outcome(db, Executed(t, Failure(n, Without))), Outcome(db, t.(add := t.add[..n]));
    var p, rest := t.add[n], t.add[..n];
    forall name ensures Lookup(x, name) == if name == p.name then None else Lookup(y, name) {
      LastRemoved(db, t, n, name);
    }
    assert forall name :: name in x <==> Lookup(x, name) != None;
    assert forall name :: name in y <==> Lookup(y, name) != None;
    assert x == y - {p.name};
  }

  /** What a failed install leaves is the outcome of a plan, too. */
  lemma LeftOverIsOutcome(db: Cache, t: Trans, n: nat, left: Left)
    requires UniquelyNamed(t.add) && n < |t.add|
    ensures LeftOver(Outcome(db, t.(add := t.add[..n])), t.add[n], t.flags, left)
      == Outcome(db, Executed(t, Failure(n, left)))
  {
    match left
    case Without => WithoutIsRemoved(db, t, n);
    case Stored => assert t.add[..n + 1][..n] == t.add[..n];
  }

  lemma LastRemoved(db: Cache, t: Trans, n: nat, name: string)
    requires UniquelyNamed(t.add) && n < |t.add|
    ensures Lookup(Outcome(db, t.(add := t.add[..n], remove := t.remove + [t.add[n]])), name)
      == if name == t.add[n].name then None else Lookup(Outcome(db, t.(add := t.add[..n])), name)
  {
    var p, rest, rem := t.add[n], t.add[..n], t.remove + [t.add[n]];
    assert Named(rem, name) <==> Named(t.remove, name) || name == p.name by {
      assert rem[|t.remove|] == p;
      assert forall k :: 0 <= k < |t.remove| ==> rem[k] == t.remove[k];
    }
    OutcomeOverrides(db, t.(add := rest, remove := rem));
    OutcomeOverrides(db, t.(add := rest));
    if Named(rest, name) {
      var k :| 0 <= k < n && rest[k].name == name;
      assert t.add[k].name != p.name;
    }
  }
}
