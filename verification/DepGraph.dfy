/** The dependency graph of a transaction (lib/libalpm/deps.c: dep_graph_init), built lazily: a local
    package becomes a vertex when a vertex depends on it. */
module DepGraph {
  import opened Packages
  import opened Deps
  import opened DepOrder

  datatype State = Unprocessed | Processing | Processed

  class Vertex {
    const data: Pkg
    var state: State
    var parent: Vertex?
    var children: seq<Vertex>
    var cursor: nat

    constructor (data: Pkg)
      ensures this.data == data && state == Unprocessed && parent == null && children == [] && cursor == 0
    {
      this.data := data;
      state, parent, children, cursor := Unprocessed, null, [], 0;
    }
  }

  /** No two vertices, and no vertex and package of the pool, have the same name. */
  ghost predicate Apart(vs: seq<Vertex>, pool: seq<Pkg>) {
    && (forall i, j :: 0 <= i < j < |vs| ==> vs[i] != vs[j] && vs[i].data.name != vs[j].data.name)
    && UniquelyNamed(pool)
    && (forall i, k :: 0 <= i < |vs| && 0 <= k < |pool| ==> vs[i].data.name != pool[k].name)
  }

  ghost predicate IsUntouched(v: Vertex)
    reads v`state, v`parent, v`cursor
  {
    v.state == Unprocessed && v.parent == null && v.cursor == 0
  }

  /** The children of v are the vertices that it depends on. */
  ghost predicate Exact(v: Vertex, vs: seq<Vertex>)
    reads v`children
  {
    && (forall j :: 0 <= j < |vs| ==> (vs[j] in v.children <==> DependsOn(v.data, vs[j].data)))
    && (forall c :: 0 <= c < |v.children| ==> v.children[c] in vs)
  }

  /** v depends on no package of the pool. */
  ghost predicate NoneIn(v: Vertex, pool: seq<Pkg>) {
    forall k :: 0 <= k < |pool| ==> !DependsOn(v.data, pool[k])
  }

  /** Adds an edge to every vertex that v depends on. */
  method LinkVertices(v: Vertex, vs: seq<Vertex>)
    requires v in vs && v.children == []
    modifies v`children
    ensures Exact(v, vs)
  {
    for j := 0 to |vs|
      invariant forall k :: 0 <= k < j ==> DependsOn(v.data, vs[k].data) ==> vs[k] in v.children
      invariant forall c :: 0 <= c < |v.children| ==> v.children[c] in vs && DependsOn(v.data, v.children[c].data)
    {
      if DependsOn(v.data, vs[j].data) {
        v.children := v.children + [vs[j]];
      }
    }
  }

  /** The local packages are the pool and the data of the vertices from position n on. */
  ghost predicate Shares(local: seq<Pkg>, vs: seq<Vertex>, n: nat, pool: seq<Pkg>) {
    && (forall k :: 0 <= k < |pool| ==> pool[k] in local)
    && (forall j :: n <= j < |vs| ==> vs[j].data in local)
    && (forall p :: p in local ==> p in pool || exists j :: 0 <= j < |vs| && vs[j].data == p)
  }

  /** The packages that p depends on (or does not), in order. */
  ghost function Pick(p: Pkg, s: seq<Pkg>, dep: bool): (r: seq<Pkg>) {
    if s == [] then []
    else var n := |s| - 1; Pick(p, s[..n], dep) + (if DependsOn(p, s[n]) == dep then [s[n]] else [])
  }

  lemma {:induction false} PickMembers(p: Pkg, s: seq<Pkg>, dep: bool, q: Pkg)
    ensures q in Pick(p, s, dep) <==> q in s && DependsOn(p, q) == dep
  {
    if s != [] {
      var n := |s| - 1;
      PickMembers(p, s[..n], dep, q);
      assert s == s[..n] + [s[n]];
    }
  }

  lemma {:induction false} PickUnique(p: Pkg, s: seq<Pkg>, dep: bool)
    requires UniquelyNamed(s)
    ensures UniquelyNamed(Pick(p, s, dep))
  {
    if s != [] {
      var n := |s| - 1;
      PickUnique(p, s[..n], dep);
      var t := Pick(p, s[..n], dep);
      forall k | 0 <= k < |t| ensures t[k].name != s[n].name {
        PickMembers(p, s[..n], dep, t[k]);
        var j :| 0 <= j < n && s[..n][j] == t[k];
        assert s[j] == t[k];
      }
    }
  }

  /** vs is vs0 followed by new vertices for the given packages. */
  ghost predicate Extends(vs0: seq<Vertex>, ps: seq<Pkg>, vs: seq<Vertex>) {
    |vs| == |vs0| + |ps| && vs[..|vs0|] == vs0 && forall j :: 0 <= j < |ps| ==> vs[|vs0| + j].data == ps[j]
  }

  /** Turns the local packages of the pool that v depends on into vertices, with an edge from v. */
  method PullLocals(v: Vertex, vs0: seq<Vertex>, pool0: seq<Pkg>) returns (vs: seq<Vertex>, pool: seq<Pkg>)
    requires Exact(v, vs0)
    modifies v`children
    ensures Extends(vs0, Pick(v.data, pool0, true), vs) && pool == Pick(v.data, pool0, false)
    ensures Exact(v, vs)
    ensures forall k :: |vs0| <= k < |vs| ==> fresh(vs[k]) && vs[k].children == [] && IsUntouched(vs[k])
    ensures forall j, k :: |vs0| <= j < k < |vs| ==> vs[j] != vs[k]
  {
    vs, pool := vs0, [];
    for k := 0 to |pool0|
      invariant Extends(vs0, Pick(v.data, pool0[..k], true), vs) && pool == Pick(v.data, pool0[..k], false)
      invariant Exact(v, vs)
      invariant forall j :: |vs0| <= j < |vs| ==> fresh(vs[j]) && vs[j].children == [] && IsUntouched(vs[j])
      invariant forall i, j :: |vs0| <= i < j < |vs| ==> vs[i] != vs[j]
    {
      assert pool0[..k + 1][..k] == pool0[..k];
      if DependsOn(v.data, pool0[k]) {
        vs := PullOne(v, vs, pool0[k]);
      } else {
        pool := pool + [pool0[k]];
      }
    }
    assert pool0[..|pool0|] == pool0;
  }

  lemma StillApart(p: Pkg, vs0: seq<Vertex>, pool0: seq<Pkg>, vs: seq<Vertex>)
    requires Apart(vs0, pool0) && Extends(vs0, Pick(p, pool0, true), vs)
    requires forall j, k :: 0 <= j < |vs0| <= k < |vs| ==> vs[j] != vs[k]
    requires forall j, k :: |vs0| <= j < k < |vs| ==> vs[j] != vs[k]
    ensures Apart(vs, Pick(p, pool0, false))
  {
    var n, up, down := |vs0|, Pick(p, pool0, true), Pick(p, pool0, false);
    PickUnique(p, pool0, true);
    PickUnique(p, pool0, false);
    forall k | 0 <= k < |up| ensures up[k] in pool0 && DependsOn(p, up[k]) { PickMembers(p, pool0, true, up[k]); }
    forall k | 0 <= k < |down|
      ensures down[k] in pool0 && !DependsOn(p, down[k])
    {
      PickMembers(p, pool0, false, down[k]);
    }
    forall i | 0 <= i < n ensures vs[i] == vs0[i] { assert vs[..n][i] == vs0[i]; }
    forall i, k | 0 <= i < |up| && 0 <= k < |down| ensures up[i].name != down[k].name {
      var i' :| 0 <= i' < |pool0| && pool0[i'] == up[i];
      var k' :| 0 <= k' < |pool0| && pool0[k'] == down[k];
    }
    forall i | n <= i < |vs| ensures vs[i].data == up[i - n] { assert vs[n + (i - n)].data == up[i - n]; }
    forall i, j | 0 <= i < j < |vs| ensures vs[i].data.name != vs[j].data.name {
      if i < n <= j {
        var k :| 0 <= k < |pool0| && pool0[k] == up[j - n];
        assert vs0[i].data.name != pool0[k].name;
      }
    }
    forall i, k | 0 <= i < |vs| && 0 <= k < |down| ensures vs[i].data.name != down[k].name {
      if i < n {
        var k' :| 0 <= k' < |pool0| && pool0[k'] == down[k];
        assert vs0[i].data.name != pool0[k'].name;
      }
    }
  }

  method PullOne(v: Vertex, vs0: seq<Vertex>, p: Pkg) returns (vs: seq<Vertex>)
    requires Exact(v, vs0) && DependsOn(v.data, p)
    modifies v`children
    ensures |vs| == |vs0| + 1 && vs[..|vs0|] == vs0 && Exact(v, vs)
    ensures fresh(vs[|vs0|]) && vs[|vs0|].data == p && vs[|vs0|].children == [] && IsUntouched(vs[|vs0|])
  {
    var w := new Vertex(p);
    vs := vs0 + [w];
    v.children := v.children + [w];
  }

  // ---------- the graph ----------

  /** The graph of the closure of the targets under dependency, targets first. */
  ghost predicate IsGraph(vs: seq<Vertex>, targets: seq<Pkg>, local: seq<Pkg>)
    reads vs
  {
    && |targets| <= |vs| && (forall k :: 0 <= k < |targets| ==> vs[k].data == targets[k])
    && (forall k :: |targets| <= k < |vs| ==> vs[k].data in local)
    && Apart(vs, [])
    && (forall k :: 0 <= k < |vs| ==> Exact(vs[k], vs))
    && (forall k, p :: 0 <= k < |vs| && p in local && DependsOn(vs[k].data, p) ==>
      exists j :: 0 <= j < |vs| && vs[j].data == p)
  }

  /** A vertex that is done stays exact when packages it does not depend on become vertices. */
  lemma StillExact(u: Vertex, vs0: seq<Vertex>, p: Pkg, pool0: seq<Pkg>, vs: seq<Vertex>)
    requires Exact(u, vs0) && NoneIn(u, pool0) && Extends(vs0, Pick(p, pool0, true), vs)
    requires forall j, k :: 0 <= j < |vs0| <= k < |vs| ==> vs[j] != vs[k]
    ensures Exact(u, vs) && NoneIn(u, Pick(p, pool0, false))
  {
    var n, up, down := |vs0|, Pick(p, pool0, true), Pick(p, pool0, false);
    assert forall j :: 0 <= j < n ==> vs[j] == vs[..n][j];
    forall j | n <= j < |vs| ensures !DependsOn(u.data, vs[j].data) && vs[j] !in u.children {
      assert vs[n + (j - n)].data == up[j - n];
      PickMembers(p, pool0, true, up[j - n]);
      assert vs[j] !in vs0;
    }
    forall k | 0 <= k < |down| ensures !DependsOn(u.data, down[k]) { PickMembers(p, pool0, false, down[k]); }
  }

  method NewVertices(targets: seq<Pkg>) returns (vs: seq<Vertex>)
    ensures |vs| == |targets| && forall k :: 0 <= k < |vs| ==>
      fresh(vs[k]) && vs[k].data == targets[k] && vs[k].children == [] && IsUntouched(vs[k])
    ensures forall i, j :: 0 <= i < j < |vs| ==> vs[i] != vs[j]
  {
    vs := [];
    for i := 0 to |targets|
      invariant |vs| == i && forall k :: 0 <= k < i ==>
        fresh(vs[k]) && vs[k].data == targets[k] && vs[k].children == [] && IsUntouched(vs[k])
      invariant forall k, j :: 0 <= k < j < i ==> vs[k] != vs[j]
    {
      var v := new Vertex(targets[i]);
      vs := vs + [v];
    }
  }

  /** The first i vertices have all their edges, and depend on nothing in the pool. */
  ghost predicate Built(vs: seq<Vertex>, i: nat, targets: seq<Pkg>, local: seq<Pkg>, pool: seq<Pkg>)
    reads vs
  {
    && |targets| <= |vs| && (forall k :: 0 <= k < |targets| ==> vs[k].data == targets[k])
    && i <= |vs| && Apart(vs, pool) && Shares(local, vs, |targets|, pool)
    && (forall k :: 0 <= k < i ==> Exact(vs[k], vs) && NoneIn(vs[k], pool))
    && (forall k :: i <= k < |vs| ==> vs[k].children == [])
    && (forall k :: 0 <= k < |vs| ==> IsUntouched(vs[k]))
  }

  /** Every vertex that is not a target is there because an earlier one depends on it. */
  ghost predicate Rooted(vs: seq<Vertex>, n: nat) {
    forall k :: n <= k < |vs| ==> HasParent(vs, k)
  }

  ghost predicate HasParent(vs: seq<Vertex>, k: nat) {
    k < |vs| && exists j :: 0 <= j < k && DependsOn(vs[j].data, vs[k].data)
  }

  ghost predicate IsReached(U: seq<Pkg>, targets: seq<Pkg>, p: Pkg) {
    exists t :: t in targets && Reaches(U, t, p)
  }

  lemma StillRooted(vs0: seq<Vertex>, i: nat, n: nat, pool0: seq<Pkg>, vs: seq<Vertex>)
    requires Rooted(vs0, n) && i < |vs0| && n <= |vs0| && Extends(vs0, Pick(vs0[i].data, pool0, true), vs)
    ensures Rooted(vs, n)
  {
    assert forall k :: 0 <= k < |vs0| ==> vs[k] == vs[..|vs0|][k];
    forall k | n <= k < |vs| ensures HasParent(vs, k) {
      if k < |vs0| {
        assert HasParent(vs0, k);
        var j :| 0 <= j < k && DependsOn(vs0[j].data, vs0[k].data);
        assert DependsOn(vs[j].data, vs[k].data);
      } else {
        var up := Pick(vs0[i].data, pool0, true);
        assert vs[|vs0| + (k - |vs0|)].data == up[k - |vs0|];
        PickMembers(vs0[i].data, pool0, true, up[k - |vs0|]);
        assert DependsOn(vs[i].data, vs[k].data);
      }
    }
  }

  /** So every vertex is reached from a target. */
  lemma {:induction false} FromTarget(vs: seq<Vertex>, targets: seq<Pkg>, U: seq<Pkg>, k: nat) returns (t: Pkg)
    requires k < |vs| && |targets| <= |vs| && Rooted(vs, |targets|)
    requires forall j :: 0 <= j < |targets| ==> vs[j].data == targets[j]
    requires forall j :: 0 <= j < |vs| ==> vs[j].data in U
    ensures t in targets && Reaches(U, t, vs[k].data)
  {
    if k < |targets| {
      t := targets[k];
      assert IsPath(U, [t]);
    } else {
      assert HasParent(vs, k);
      var j :| 0 <= j < k && DependsOn(vs[j].data, vs[k].data);
      t := FromTarget(vs, targets, U, j);
      var path :| IsPath(U, path) && path[0] == t && path[|path| - 1] == vs[j].data;
      assert IsPath(U, path + [vs[k].data]);
    }
  }

  /** One round of the edge loop. */
  method BuildStep(vs0: seq<Vertex>, i: nat, targets: seq<Pkg>, local: seq<Pkg>, pool0: seq<Pkg>)
    returns (vs: seq<Vertex>, pool: seq<Pkg>)
    requires Built(vs0, i, targets, local, pool0) && i < |vs0| && Rooted(vs0, |targets|)
    modifies vs0[i]
    ensures Rooted(vs, |targets|)
    ensures Built(vs, i + 1, targets, local, pool) && |pool| <= |pool0| && (|pool| == |pool0| ==> |vs| == |vs0|)
    ensures forall k :: 0 <= k < |vs| ==> vs[k] in vs0 || fresh(vs[k])
  {
    LinkVertices(vs0[i], vs0);
    vs, pool := PullLocals(vs0[i], vs0, pool0);
    PickLengths(vs0[i].data, pool0);
    BuiltStep(vs0, i, targets, local, pool0, vs, pool);
    StillRooted(vs0, i, |targets|, pool0, vs);
    forall k | 0 <= k < |vs| ensures vs[k] in vs0 || fresh(vs[k]) {
      if k < |vs0| { assert vs[..|vs0|][k] == vs[k]; }
    }
  }

  lemma BuiltStep(vs0: seq<Vertex>, i: nat, targets: seq<Pkg>, local: seq<Pkg>, pool0: seq<Pkg>, vs: seq<Vertex>,
                  pool: seq<Pkg>)
    requires i < |vs0| && |targets| <= |vs0| && (forall k :: 0 <= k < |targets| ==> vs0[k].data == targets[k])
    requires Apart(vs0, pool0) && Shares(local, vs0, |targets|, pool0)
    requires Extends(vs0, Pick(vs0[i].data, pool0, true), vs) && pool == Pick(vs0[i].data, pool0, false)
    requires forall j, k :: 0 <= j < |vs0| <= k < |vs| ==> vs[j] != vs[k]
    requires forall j, k :: |vs0| <= j < k < |vs| ==> vs[j] != vs[k]
    requires (forall k :: 0 <= k < i ==> Exact(vs0[k], vs0) && NoneIn(vs0[k], pool0)) && Exact(vs0[i], vs)
    requires forall k :: i < k < |vs0| ==> vs0[k].children == []
    requires forall k :: 0 <= k < |vs0| ==> IsUntouched(vs0[k])
    requires forall k :: |vs0| <= k < |vs| ==> vs[k].children == [] && IsUntouched(vs[k])
    ensures Built(vs, i + 1, targets, local, pool)
  {
    var p := vs0[i].data;
    StillApart(p, vs0, pool0, vs);
    DoneStayDone(vs0, i, pool0, vs);
    StillShares(local, vs0, |targets|, pool0, p, vs);
    AllAsBefore(vs0, i, targets, vs);
  }

  /** The old vertices are still there, and what held of each of them. */
  lemma AllAsBefore(vs0: seq<Vertex>, i: nat, targets: seq<Pkg>, vs: seq<Vertex>)
    requires i < |vs0| <= |vs| && vs[..|vs0|] == vs0
    requires |targets| <= |vs0| && (forall k :: 0 <= k < |targets| ==> vs0[k].data == targets[k])
    requires forall k :: i < k < |vs0| ==> vs0[k].children == []
    requires forall k :: 0 <= k < |vs0| ==> IsUntouched(vs0[k])
    requires forall k :: |vs0| <= k < |vs| ==> vs[k].children == [] && IsUntouched(vs[k])
    ensures forall k :: 0 <= k < |vs0| ==> vs[k] == vs0[k]
    ensures forall k :: 0 <= k < |targets| ==> vs[k].data == targets[k]
    ensures forall k :: i + 1 <= k < |vs| ==> vs[k].children == []
    ensures forall k :: 0 <= k < |vs| ==> IsUntouched(vs[k])
  {
    forall k | 0 <= k < |vs0| ensures vs[k] == vs0[k] { assert vs[..|vs0|][k] == vs0[k]; }
  }

  lemma DoneStayDone(vs0: seq<Vertex>, i: nat, pool0: seq<Pkg>, vs: seq<Vertex>)
    requires i < |vs0| && Extends(vs0, Pick(vs0[i].data, pool0, true), vs)
    requires forall j, k :: 0 <= j < |vs0| <= k < |vs| ==> vs[j] != vs[k]
    requires (forall k :: 0 <= k < i ==> Exact(vs0[k], vs0) && NoneIn(vs0[k], pool0)) && Exact(vs0[i], vs)
    ensures forall k :: 0 <= k <= i ==> Exact(vs0[k], vs) && NoneIn(vs0[k], Pick(vs0[i].data, pool0, false))
  {
    var p, pool := vs0[i].data, Pick(vs0[i].data, pool0, false);
    forall k | 0 <= k < |pool| ensures !DependsOn(p, pool[k]) { PickMembers(p, pool0, false, pool[k]); }
    forall k | 0 <= k < i ensures Exact(vs0[k], vs) && NoneIn(vs0[k], pool) { StillExact(vs0[k], vs0, p, pool0, vs); }
  }

  lemma {:induction false} PickLengths(p: Pkg, s: seq<Pkg>)
    ensures |Pick(p, s, true)| + |Pick(p, s, false)| == |s|
  {
    if s != [] { PickLengths(p, s[..|s| - 1]); }
  }

  lemma StillShares(local: seq<Pkg>, vs0: seq<Vertex>, n: nat, pool0: seq<Pkg>, p: Pkg, vs: seq<Vertex>)
    requires Shares(local, vs0, n, pool0) && Extends(vs0, Pick(p, pool0, true), vs) && n <= |vs0|
    ensures Shares(local, vs, n, Pick(p, pool0, false))
  {
    var up, down := Pick(p, pool0, true), Pick(p, pool0, false);
    assert forall k :: 0 <= k < |vs0| ==> vs[k] == vs[..|vs0|][k];
    forall k | 0 <= k < |down| ensures down[k] in local { PickMembers(p, pool0, false, down[k]); }
    forall j | n <= j < |vs| ensures vs[j].data in local {
      if j >= |vs0| {
        assert vs[|vs0| + (j - |vs0|)].data == up[j - |vs0|];
        PickMembers(p, pool0, true, up[j - |vs0|]);
      }
    }
    forall q | q in local ensures q in down || exists j :: 0 <= j < |vs| && vs[j].data == q {
      PickMembers(p, pool0, false, q);
      PickMembers(p, pool0, true, q);
      if q in up {
        var j :| 0 <= j < |up| && up[j] == q;
        assert vs[|vs0| + j].data == q;
      } else if q !in down {
        var j :| 0 <= j < |vs0| && vs0[j].data == q;
        assert vs[j].data == q;
      }
    }
  }

  lemma AllReached(vs: seq<Vertex>, targets: seq<Pkg>, local: seq<Pkg>)
    requires |targets| <= |vs| && Rooted(vs, |targets|) && (forall j :: 0 <= j < |targets| ==> vs[j].data == targets[j])
    requires forall j :: |targets| <= j < |vs| ==> vs[j].data in local
    ensures forall k :: 0 <= k < |vs| ==> IsReached(targets + local, targets, vs[k].data)
  {
    var U := targets + local;
    forall j | 0 <= j < |vs| ensures vs[j].data in U { assert j < |targets| ==> targets[j] in targets; }
    forall k | 0 <= k < |vs| ensures IsReached(U, targets, vs[k].data) {
      var t := FromTarget(vs, targets, U, k);
    }
  }

  method BuildGraph(targets: seq<Pkg>, local: seq<Pkg>) returns (vs: seq<Vertex>)
    requires UniquelyNamed(targets) && UniquelyNamed(local)
    requires forall k :: 0 <= k < |local| ==> !Named(targets, local[k].name)
    ensures IsGraph(vs, targets, local)
    ensures forall k :: 0 <= k < |vs| ==> IsReached(targets + local, targets, vs[k].data)
    ensures forall k :: 0 <= k < |vs| ==> fresh(vs[k]) && IsUntouched(vs[k])
  {
    vs := NewVertices(targets);
    var pool, i := local, 0;
    while i < |vs|
      invariant 0 <= i <= |vs| && Built(vs, i, targets, local, pool) && Rooted(vs, |targets|)
      invariant forall k :: 0 <= k < |vs| ==> fresh(vs[k])
      decreases |pool|, |vs| - i
    {
      vs, pool := BuildStep(vs, i, targets, local, pool);
      i := i + 1;
    }
    AllReached(vs, targets, local);
  }
}
