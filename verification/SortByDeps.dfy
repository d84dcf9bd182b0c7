/** Ordering packages by dependency (lib/libalpm/deps.c: _alpm_sortbydeps): an iterative depth-first
    search that lists a package when it leaves its vertex. */
module SortByDeps {
  import opened Packages
  import opened Deps
  import opened PkgDiff
  import opened DepGraph
  import opened DepOrder

  ghost function Datas(vs: seq<Vertex>): (r: seq<Pkg>)
    ensures |r| == |vs| && forall k :: 0 <= k < |vs| ==> r[k] == vs[k].data
  {
    seq(|vs|, k requires 0 <= k < |vs| => vs[k].data)
  }

  // ---------- the state of the search ----------

  /** The stack runs from the root to the current vertex, each depending on the next; the vertices that
      have been left are listed in the order of leaving. */
  ghost predicate Places(vs: seq<Vertex>, stack: seq<Vertex>, finished: seq<Vertex>) {
    && (forall k :: 0 <= k < |stack| ==> stack[k] in vs && stack[k] !in finished)
    && (forall k :: 0 <= k < |finished| ==> finished[k] in vs)
    && (forall i, j :: 0 <= i < j < |stack| ==> stack[i] != stack[j])
    && (forall i, j :: 0 <= i < j < |finished| ==> finished[i] != finished[j])
    && (forall k :: 0 < k < |stack| ==> DependsOn(stack[k - 1].data, stack[k].data))
  }

  ghost predicate Parents(stack: seq<Vertex>)
    reads stack`parent
  {
    && (stack != [] ==> stack[0].parent == null)
    && (forall k {:trigger stack[k].parent} :: 0 < k < |stack| ==> stack[k].parent == stack[k - 1])
  }

  /** States agree with the stack, whose top may not have been marked yet, and the finished vertices. */
  ghost predicate Colours(vs: seq<Vertex>, stack: seq<Vertex>, finished: seq<Vertex>)
    reads vs`state, stack`state, finished`state
  {
    && (forall k :: 0 <= k < |finished| ==> finished[k].state == Processed)
    && (forall k :: 0 <= k < |stack| - 1 ==> stack[k].state == Processing)
    && (forall k :: 0 <= k < |vs| && vs[k] !in stack && vs[k] !in finished ==> vs[k].state == Unprocessed)
  }

  ghost predicate Idle(vs: seq<Vertex>, stack: seq<Vertex>, finished: seq<Vertex>)
    reads vs`parent, vs`cursor
  {
    forall k :: 0 <= k < |vs| && vs[k] !in stack && vs[k] !in finished ==> vs[k].parent == null && vs[k].cursor == 0
  }

  /** The children that a vertex on the stack has stepped over have been met. */
  ghost predicate Cursors(stack: seq<Vertex>, finished: seq<Vertex>)
    reads stack`cursor, stack`children
  {
    && (forall k :: 0 <= k < |stack| ==> stack[k].cursor <= |stack[k].children|)
    && (forall k, c :: 0 <= k < |stack| && 0 <= c < stack[k].cursor ==>
          stack[k].children[c] in stack || stack[k].children[c] in finished)
  }

  lemma DataIn(vs: seq<Vertex>, v: Vertex)
    requires v in vs
    ensures v.data in Datas(vs)
  {
    var j :| 0 <= j < |vs| && vs[j] == v;
    assert Datas(vs)[j] == v.data;
  }

  lemma StackReaches(vs: seq<Vertex>, stack: seq<Vertex>, finished: seq<Vertex>, k: nat)
    requires Places(vs, stack, finished) && k < |stack|
    ensures Reaches(Datas(vs), stack[k].data, stack[|stack| - 1].data)
  {
    var U, path := Datas(vs), Datas(stack[k..]);
    forall i | 0 <= i < |path| ensures path[i] in U {
      assert path[i] == stack[k + i].data;
      DataIn(vs, stack[k + i]);
    }
    forall i | 0 < i < |path| ensures DependsOn(path[i - 1], path[i]) {
      assert path[i] == stack[k + i].data && path[i - 1] == stack[k + i - 1].data;
    }
    assert IsPath(U, path);
    assert path[0] == stack[k].data && path[|path| - 1] == stack[|stack| - 1].data;
  }

  ghost predicate AllExact(vs: seq<Vertex>)
    reads vs`children
  {
    forall k :: 0 <= k < |vs| ==> Exact(vs[k], vs)
  }

  /** Leaving a vertex, all of whose children have been met, keeps the order right. */
  lemma FinishOk(vs: seq<Vertex>, stack: seq<Vertex>, finished: seq<Vertex>, v: Vertex)
    requires AllExact(vs) && Places(vs, stack, finished) && Cursors(stack, finished) && stack != []
    requires v == stack[|stack| - 1]
    requires v.cursor == |v.children| && OrderOk(Datas(vs), Datas(finished))
    ensures OrderOk(Datas(vs), Datas(finished + [v]))
  {
    var U, order, order' := Datas(vs), Datas(finished), Datas(finished + [v]);
    assert order' == order + [v.data];
    forall f, q | 0 <= f < |order'| && q in U && DependsOn(order'[f], q)
      ensures q in order'[..f] || Reaches(U, q, order'[f])
    {
      assert order'[..f] == order[..f];
      if f == |order| {
        var j :| 0 <= j < |U| && U[j] == q;
        assert vs[j] in v.children;
        var c :| 0 <= c < |v.children| && v.children[c] == vs[j];
        if vs[j] in finished {
          var k :| 0 <= k < |finished| && finished[k] == vs[j];
          assert order[k] == q;
          assert order[..f] == order;
        } else {
          var k :| 0 <= k < |stack| && stack[k] == vs[j];
          StackReaches(vs, stack, finished, k);
        }
      } else {
        assert order'[f] == order[f];
      }
    }
  }

  /** Advances the cursor to the next child that has not been met. */
  method NextChild(v: Vertex) returns (child: Vertex?)
    requires v.cursor <= |v.children|
    modifies v`cursor
    ensures old(v.cursor) <= v.cursor <= |v.children|
    ensures child == null ==> v.cursor == |v.children|
    ensures child != null ==>
      old(v.cursor) < v.cursor && child == v.children[v.cursor - 1] && child.state == Unprocessed
    ensures forall c :: old(v.cursor) <= c < v.cursor && (child != null ==> c < v.cursor - 1) ==>
      v.children[c].state != Unprocessed
  {
    child := null;
    while v.cursor < |v.children| && child == null
      invariant old(v.cursor) <= v.cursor <= |v.children|
      invariant child != null ==>
        old(v.cursor) < v.cursor && child == v.children[v.cursor - 1] && child.state == Unprocessed
      invariant forall c :: old(v.cursor) <= c < v.cursor && (child != null ==> c < v.cursor - 1) ==>
        v.children[c].state != Unprocessed
      decreases |v.children| - v.cursor
    {
      var next := v.children[v.cursor];
      v.cursor := v.cursor + 1;
      if next.state == Unprocessed {
        child := next;
      }
    }
  }

  ghost predicate Searching(vs: seq<Vertex>, stack: seq<Vertex>, finished: seq<Vertex>)
    reads vs, stack, finished
  {
    && AllExact(vs) && Places(vs, stack, finished) && Parents(stack)
    && Colours(vs, stack, finished) && Idle(vs, stack, finished) && Cursors(stack, finished)
  }

  /** Once the top of the stack is marked, the untouched vertices are those neither on it nor finished. */
  lemma MetOrNot(vs: seq<Vertex>, stack: seq<Vertex>, finished: seq<Vertex>, w: Vertex)
    requires Colours(vs, stack, finished) && stack != [] && stack[|stack| - 1].state == Processing && w in vs
    ensures w.state == Unprocessed <==> w !in stack && w !in finished
  {
    if w in stack {
      var k :| 0 <= k < |stack| && stack[k] == w;
    } else if w in finished {
      var k :| 0 <= k < |finished| && finished[k] == w;
    } else {
      var k :| 0 <= k < |vs| && vs[k] == w;
    }
  }

  lemma ChildOf(vs: seq<Vertex>, v: Vertex, c: nat)
    requires AllExact(vs) && v in vs && c < |v.children|
    ensures v.children[c] in vs && DependsOn(v.data, v.children[c].data)
  {
    var k :| 0 <= k < |vs| && vs[k] == v;
    assert Exact(vs[k], vs);
    var j :| 0 <= j < |vs| && vs[j] == v.children[c];
  }

  /** Marks the current vertex as being processed. */
  method Mark(vs: seq<Vertex>, vertex: Vertex, ghost stack: seq<Vertex>, ghost finished: seq<Vertex>)
    requires Places(vs, stack, finished) && Colours(vs, stack, finished) && stack != [] && vertex == stack[|stack| - 1]
    modifies vertex`state
    ensures Colours(vs, stack, finished) && vertex.state == Processing
  {
    vertex.state := Processing;
  }

  /** Children are untouched exactly when they are neither on the stack nor finished. */
  lemma ChildrenMet(vs: seq<Vertex>, vertex: Vertex, stack: seq<Vertex>, finished: seq<Vertex>)
    requires AllExact(vs) && Colours(vs, stack, finished) && vertex in vs && stack != []
    requires stack[|stack| - 1].state == Processing
    ensures forall c :: 0 <= c < |vertex.children| ==> Known(vertex.children[c], vertex, vs, stack, finished)
  {
    forall c | 0 <= c < |vertex.children| ensures Known(vertex.children[c], vertex, vs, stack, finished) {
      ChildOf(vs, vertex, c);
      MetOrNot(vs, stack, finished, vertex.children[c]);
    }
  }

  ghost predicate Known(w: Vertex, v: Vertex, vs: seq<Vertex>, stack: seq<Vertex>, finished: seq<Vertex>)
    reads w`state
  {
    w in vs && DependsOn(v.data, w.data) && (w.state == Unprocessed <==> w !in stack && w !in finished)
  }

  /** Looks for the next child that has not been met. */
  method Scan(vs: seq<Vertex>, vertex: Vertex, ghost stack: seq<Vertex>, ghost finished: seq<Vertex>)
    returns (child: Vertex?)
    requires vertex in stack && Cursors(stack, finished) && Idle(vs, stack, finished)
    requires forall c :: 0 <= c < |vertex.children| ==> Known(vertex.children[c], vertex, vs, stack, finished)
    modifies vertex`cursor
    ensures Idle(vs, stack, finished)
    ensures child == null ==> vertex.cursor == |vertex.children| && Cursors(stack, finished)
    ensures child != null ==> Known(child, vertex, vs, stack, finished) && child.state == Unprocessed
    ensures child != null ==> Cursors(stack, finished + [child])
  {
    child := NextChild(vertex);
  }

  lemma PlacesMore(vs: seq<Vertex>, vertex: Vertex, child: Vertex, stack: seq<Vertex>, finished: seq<Vertex>)
    requires Places(vs, stack, finished) && stack != [] && vertex == stack[|stack| - 1]
    requires child in vs && child !in stack && child !in finished && DependsOn(vertex.data, child.data)
    ensures Places(vs, stack + [child], finished)
  {
    var path := stack + [child];
    assert forall k :: 0 <= k < |stack| ==> path[k] == stack[k];
    forall k | 0 < k < |path| ensures DependsOn(path[k - 1].data, path[k].data) {
      if k < |stack| { assert path[k - 1] == stack[k - 1]; }
    }
  }

  /** Steps into a child. */
  method Push(vs: seq<Vertex>, vertex: Vertex, child: Vertex, ghost stack: seq<Vertex>, ghost finished: seq<Vertex>)
    requires Places(vs, stack, finished) && Parents(stack) && Idle(vs, stack, finished)
    requires stack != [] && vertex == stack[|stack| - 1]
    requires child in vs && child !in stack && child !in finished && DependsOn(vertex.data, child.data)
    modifies child`parent
    ensures Places(vs, stack + [child], finished) && Parents(stack + [child])
    ensures Idle(vs, stack + [child], finished) && child.cursor == 0
  {
    PlacesMore(vs, vertex, child, stack, finished);
    ghost var k :| 0 <= k < |vs| && vs[k] == child;
    assert child.cursor == 0;
    child.parent := vertex;
  }

  lemma Pushed(vs: seq<Vertex>, child: Vertex, stack: seq<Vertex>, finished: seq<Vertex>)
    requires Colours(vs, stack, finished) && stack != [] && stack[|stack| - 1].state == Processing
    requires Cursors(stack, finished + [child]) && child.cursor == 0
    ensures Colours(vs, stack + [child], finished) && Cursors(stack + [child], finished)
  {
  }

  /** Marks the current vertex and finds the child to step into, if any is left. */
  method Enter(vs: seq<Vertex>, vertex: Vertex, ghost stack: seq<Vertex>, ghost finished: seq<Vertex>)
    returns (child: Vertex?)
    requires Searching(vs, stack, finished) && stack != [] && vertex == stack[|stack| - 1]
    modifies vertex`state, vertex`cursor
    ensures Colours(vs, stack, finished) && Idle(vs, stack, finished) && vertex.state == Processing
    ensures child == null ==> vertex.cursor == |vertex.children| && Cursors(stack, finished)
    ensures child != null ==> Known(child, vertex, vs, stack, finished) && child.state == Unprocessed
    ensures child != null ==> Cursors(stack, finished + [child])
  {
    Mark(vs, vertex, stack, finished);
    ChildrenMet(vs, vertex, stack, finished);
    child := Scan(vs, vertex, stack, finished);
  }

  /** One step of the search from the current vertex: into a child, or ready to leave. */
  method Advance(vs: seq<Vertex>, vertex: Vertex, ghost stack: seq<Vertex>, ghost finished: seq<Vertex>)
    returns (child: Vertex?)
    requires Searching(vs, stack, finished) && stack != [] && vertex == stack[|stack| - 1]
    modifies vs`state, vs`cursor, vs`parent
    ensures child == null ==> Searching(vs, stack, finished) && vertex.cursor == |vertex.children|
    ensures child != null ==> Searching(vs, stack + [child], finished)
  {
    child := Enter(vs, vertex, stack, finished);
    if child != null {
      Push(vs, vertex, child, stack, finished);
      Pushed(vs, child, stack, finished);
    }
  }

  /** Leaves the current vertex, all of whose children have been met. */
  method Leave(vs: seq<Vertex>, vertex: Vertex, ghost stack: seq<Vertex>, ghost finished: seq<Vertex>)
    requires Places(vs, stack, finished) && Colours(vs, stack, finished)
    requires stack != [] && vertex == stack[|stack| - 1]
    modifies vertex`state
    ensures Places(vs, stack[..|stack| - 1], finished + [vertex])
    ensures Colours(vs, stack[..|stack| - 1], finished + [vertex])
  {
    vertex.state := Processed;
  }

  lemma Left(vs: seq<Vertex>, vertex: Vertex, stack: seq<Vertex>, finished: seq<Vertex>)
    requires Parents(stack) && Idle(vs, stack, finished) && Cursors(stack, finished)
    requires stack != [] && vertex == stack[|stack| - 1]
    ensures Parents(stack[..|stack| - 1]) && Idle(vs, stack[..|stack| - 1], finished + [vertex])
    ensures Cursors(stack[..|stack| - 1], finished + [vertex])
  {
  }

  /** Where the search stands: the roots before i are done, and the one at i is under way. */
  ghost predicate Running(vs: seq<Vertex>, i: nat, stack: seq<Vertex>, finished: seq<Vertex>)
    reads vs, stack, finished
  {
    && Searching(vs, stack, finished) && i <= |vs|
    && (forall k :: 0 <= k < i ==> vs[k] in finished)
    && (if i < |vs| then stack != [] && stack[0] == vs[i] else stack == [])
  }

  /** An untouched vertex can become the root of a new search. */
  lemma StartAt(vs: seq<Vertex>, i: nat, finished: seq<Vertex>)
    requires Searching(vs, [], finished) && i < |vs| && vs[i] !in finished
    ensures Searching(vs, [vs[i]], finished)
  {
  }

  /** The next vertex that has not been processed. */
  method NextRoot(vs: seq<Vertex>, i: nat, ghost finished: seq<Vertex>) returns (r: nat)
    requires Searching(vs, [], finished) && i < |vs| && (forall k :: 0 <= k <= i ==> vs[k] in finished)
    ensures i < r <= |vs| && (forall k :: 0 <= k < r ==> vs[k] in finished) && (r < |vs| ==> vs[r] !in finished)
  {
    r := i + 1;
    while r < |vs| && vs[r].state != Unprocessed
      invariant i < r <= |vs| && (forall k :: 0 <= k < r ==> vs[k] in finished)
    {
      r := r + 1;
    }
  }

  /** What has been done so far is right. */
  ghost predicate DoneOk(vs: seq<Vertex>, targets: seq<Pkg>, finished: seq<Vertex>, newtargs: seq<Pkg>) {
    newtargs == Picked(targets, Datas(finished)) && OrderOk(Datas(vs), Datas(finished))
  }

  lemma StillDone(vs: seq<Vertex>, targets: seq<Pkg>, vertex: Vertex, newtargs: seq<Pkg>, stack: seq<Vertex>,
                  finished: seq<Vertex>)
    requires Searching(vs, stack, finished) && stack != [] && vertex == stack[|stack| - 1]
    requires vertex.cursor == |vertex.children|
    requires DoneOk(vs, targets, finished, newtargs)
    ensures DoneOk(vs, targets, finished + [vertex], newtargs + if vertex.data in targets then [vertex.data] else [])
  {
    FinishOk(vs, stack, finished, vertex);
    assert Datas(finished + [vertex])[..|finished|] == Datas(finished);
  }

  /** Leaves the current vertex. */
  method Finish(vs: seq<Vertex>, vertex: Vertex, ghost stack: seq<Vertex>, ghost finished: seq<Vertex>)
    requires Searching(vs, stack, finished) && stack != [] && vertex == stack[|stack| - 1]
    modifies vertex`state
    ensures Searching(vs, stack[..|stack| - 1], finished + [vertex])
    ensures vertex.parent == if |stack| == 1 then null else stack[|stack| - 2]
  {
    Left(vs, vertex, stack, finished);
    Leave(vs, vertex, stack, finished);
  }

  /** Goes on at the parent or, at the end of a tree, at the next root. */
  method GoOn(vs: seq<Vertex>, i0: nat, parent: Vertex?, ghost stack0: seq<Vertex>, ghost finished: seq<Vertex>)
    returns (i: nat, next: Vertex?, ghost stack: seq<Vertex>)
    requires Searching(vs, stack0, finished) && i0 < |vs| && (forall k :: 0 <= k < i0 ==> vs[k] in finished)
    requires if stack0 == [] then parent == null && vs[i0] in finished
      else parent == stack0[|stack0| - 1] && stack0[0] == vs[i0]
    ensures Running(vs, i, stack, finished) && (i < |vs| ==> next == stack[|stack| - 1])
  {
    i, next, stack := i0, parent, stack0;
    if next == null {
      i := NextRoot(vs, i0, finished);
      if i < |vs| {
        StartAt(vs, i, finished);
        next, stack := vs[i], [vs[i]];
      }
    }
  }

  /** Leaves the current vertex, lists it if it is a target, and goes on. */
  method Backtrack(vs: seq<Vertex>, targets: seq<Pkg>, i0: nat, vertex: Vertex, newtargs0: seq<Pkg>,
                   ghost stack0: seq<Vertex>, ghost finished0: seq<Vertex>)
    returns (i: nat, next: Vertex?, newtargs: seq<Pkg>, ghost stack: seq<Vertex>)
    requires Running(vs, i0, stack0, finished0) && i0 < |vs| && vertex == stack0[|stack0| - 1]
    requires vertex.cursor == |vertex.children| && DoneOk(vs, targets, finished0, newtargs0)
    modifies vertex`state
    ensures Running(vs, i, stack, finished0 + [vertex]) && DoneOk(vs, targets, finished0 + [vertex], newtargs)
    ensures i < |vs| ==> next == stack[|stack| - 1]
  {
    StillDone(vs, targets, vertex, newtargs0, stack0, finished0);
    newtargs := newtargs0 + if vertex.data in targets then [vertex.data] else [];
    Finish(vs, vertex, stack0, finished0);
    i, next, stack := GoOn(vs, i0, vertex.parent, stack0[..|stack0| - 1], finished0 + [vertex]);
  }

  /** Bounds the search: vertices not left yet are in `open`, those not met yet in `unseen`. */
  ghost predicate Bounded(vs: seq<Vertex>, stack: seq<Vertex>, finished: seq<Vertex>, open: set<Vertex>,
                          unseen: set<Vertex>) {
    && (forall k :: 0 <= k < |vs| && vs[k] !in finished ==> vs[k] in open)
    && (forall k :: 0 <= k < |vs| && vs[k] !in stack && vs[k] !in finished ==> vs[k] in unseen)
  }

  lemma MetOne(vs: seq<Vertex>, stack: seq<Vertex>, child: Vertex, finished: seq<Vertex>, open: set<Vertex>,
               unseen: set<Vertex>)
    requires Places(vs, stack + [child], finished) && Bounded(vs, stack, finished, open, unseen)
    ensures Bounded(vs, stack + [child], finished, open, unseen - {child}) && child in unseen
  {
    var path := stack + [child];
    assert path[|stack|] == child && child in vs && child !in finished;
    assert forall k :: 0 <= k < |stack| ==> path[k] == stack[k];
    var k :| 0 <= k < |vs| && vs[k] == child;
  }

  lemma LeftOne(vs: seq<Vertex>, stack0: seq<Vertex>, vertex: Vertex, stack: seq<Vertex>, finished: seq<Vertex>,
                open: set<Vertex>, unseen: set<Vertex>)
    requires Places(vs, stack0, finished) && Bounded(vs, stack0, finished, open, unseen) && vertex in stack0
    ensures Bounded(vs, stack, finished + [vertex], open - {vertex}, set v | v in vs) && vertex in open
  {
    var k :| 0 <= k < |stack0| && stack0[k] == vertex;
    var j :| 0 <= j < |vs| && vs[j] == vertex;
  }

  /** Steps into a child if there is one left. */
  method Descend(vs: seq<Vertex>, i: nat, vertex: Vertex, ghost stack0: seq<Vertex>, ghost finished: seq<Vertex>,
                 ghost open: set<Vertex>, ghost unseen0: set<Vertex>)
    returns (child: Vertex?, ghost stack: seq<Vertex>, ghost unseen: set<Vertex>)
    requires Running(vs, i, stack0, finished) && i < |vs| && vertex == stack0[|stack0| - 1]
    requires Bounded(vs, stack0, finished, open, unseen0)
    modifies vs`state, vs`cursor, vs`parent
    ensures Running(vs, i, stack, finished) && Bounded(vs, stack, finished, open, unseen)
    ensures if child == null then stack == stack0 && unseen == unseen0 && vertex.cursor == |vertex.children|
            else child == stack[|stack| - 1] && unseen < unseen0
  {
    child := Advance(vs, vertex, stack0, finished);
    stack, unseen := stack0, unseen0;
    if child != null {
      MetOne(vs, stack0, child, finished, open, unseen0);
      unseen, stack := unseen0 - {child}, stack0 + [child];
    }
  }

  /** One round of the loop. */
  method Step(vs: seq<Vertex>, targets: seq<Pkg>, i0: nat, vertex: Vertex, newtargs0: seq<Pkg>,
              ghost stack0: seq<Vertex>, ghost finished0: seq<Vertex>, ghost open0: set<Vertex>,
                ghost unseen0: set<Vertex>)
    returns (i: nat, next: Vertex?, newtargs: seq<Pkg>,
             ghost stack: seq<Vertex>, ghost finished: seq<Vertex>, ghost open: set<Vertex>, ghost unseen: set<Vertex>)
    requires Running(vs, i0, stack0, finished0) && i0 < |vs| && vertex == stack0[|stack0| - 1]
    requires DoneOk(vs, targets, finished0, newtargs0) && Bounded(vs, stack0, finished0, open0, unseen0)
    modifies vs`state, vs`cursor, vs`parent
    ensures Running(vs, i, stack, finished) && (i < |vs| ==> next == stack[|stack| - 1])
    ensures DoneOk(vs, targets, finished, newtargs) && Bounded(vs, stack, finished, open, unseen)
    ensures open < open0 || (open == open0 && unseen < unseen0)
  {
    i, newtargs, finished, open := i0, newtargs0, finished0, open0;
    next, stack, unseen := Descend(vs, i0, vertex, stack0, finished0, open0, unseen0);
    if next == null {
      i, next, newtargs, stack := Backtrack(vs, targets, i0, vertex, newtargs0, stack0, finished0);
      LeftOne(vs, stack0, vertex, stack, finished0, open0, unseen0);
      open, unseen, finished := open0 - {vertex}, (set v | v in vs), finished0 + [vertex];
    }
  }

  /** The depth-first search over all vertices. */
  method Search(vs: seq<Vertex>, targets: seq<Pkg>) returns (newtargs: seq<Pkg>, ghost finished: seq<Vertex>)
    requires vs != [] && AllExact(vs) && forall k :: 0 <= k < |vs| ==> IsUntouched(vs[k])
    modifies vs`state, vs`cursor, vs`parent
    ensures Places(vs, [], finished) && (forall k :: 0 <= k < |vs| ==> vs[k] in finished)
    ensures DoneOk(vs, targets, finished, newtargs)
  {
    newtargs, finished := [], [];
    var i: nat, vertex: Vertex? := 0, vs[0];
    ghost var stack: seq<Vertex> := [vs[0]];
    ghost var open: set<Vertex>, unseen: set<Vertex> := (set v | v in vs), (set v | v in vs);
    while i < |vs|
      invariant Running(vs, i, stack, finished) && (i < |vs| ==> vertex == stack[|stack| - 1])
      invariant DoneOk(vs, targets, finished, newtargs) && Bounded(vs, stack, finished, open, unseen)
      decreases open, unseen
    {
      i, vertex, newtargs, stack, finished, open, unseen :=
        Step(vs, targets, i, vertex, newtargs, stack, finished, open, unseen);
    }
  }

  // ---------- _alpm_sortbydeps ----------

  lemma SubsetOf(s: seq<Vertex>, t: seq<Vertex>)
    requires forall k :: 0 <= k < |s| ==> s[k] in t
    ensures Subset(Datas(s), Datas(t))
  {
    forall k | 0 <= k < |s| ensures Datas(s)[k] in Datas(t) {
      var j :| 0 <= j < |t| && t[j] == s[k];
      assert Datas(t)[j] == s[k].data;
    }
  }

  lemma NamesApart(vs: seq<Vertex>, v: Vertex, w: Vertex)
    requires Apart(vs, []) && v in vs && w in vs && v != w
    ensures v.data.name != w.data.name
  {
    var i :| 0 <= i < |vs| && vs[i] == v;
    var j :| 0 <= j < |vs| && vs[j] == w;
  }

  /** Once every vertex has been left, the finishing order lists the data of all vertices once. */
  lemma Finished(vs: seq<Vertex>, finished: seq<Vertex>)
    requires Places(vs, [], finished) && Apart(vs, []) && (forall k :: 0 <= k < |vs| ==> vs[k] in finished)
    ensures UniquelyNamed(Datas(finished)) && Subset(Datas(finished), Datas(vs)) && Subset(Datas(vs), Datas(finished))
  {
    SubsetOf(vs, finished);
    SubsetOf(finished, vs);
    forall i, j | 0 <= i < j < |finished| ensures Datas(finished)[i].name != Datas(finished)[j].name {
      NamesApart(vs, finished[i], finished[j]);
    }
  }

  /** The vertices are the closure of the targets under dependency. */
  lemma GraphClosed(vs: seq<Vertex>, targets: seq<Pkg>, local: seq<Pkg>)
    requires IsGraph(vs, targets, local)
    ensures Subset(targets, Datas(vs)) && Subset(Datas(vs), targets + local) && Closed(Datas(vs), targets + local)
  {
    var D := Datas(vs);
    forall k | 0 <= k < |targets| ensures targets[k] in D { assert D[k] == targets[k]; }
    forall k | 0 <= k < |D| ensures D[k] in targets + local {
      if k < |targets| { assert (targets + local)[k] == D[k]; }
    }
    forall p, q | p in D && q in targets + local && DependsOn(p, q) ensures q in D {
      var k :| 0 <= k < |D| && D[k] == p;
      if q in local {
        assert DependsOn(vs[k].data, q);
        var j :| 0 <= j < |vs| && vs[j].data == q;
        assert D[j] == q;
      }
    }
  }

  /** A package follows every target it depends on, directly or through other packages, without cycles. */
  ghost predicate FollowsAll(U: seq<Pkg>, targets: seq<Pkg>, r: seq<Pkg>) {
    forall i, q :: 0 <= i < |r| && q in targets && q != r[i] && Reaches(U, r[i], q) ==> q in r[..i]
  }

  lemma OrderTheorem(vs: seq<Vertex>, targets: seq<Pkg>, local: seq<Pkg>, finished: seq<Vertex>, r: seq<Pkg>)
    requires IsGraph(vs, targets, local) && Places(vs, [], finished)
    requires forall k :: 0 <= k < |vs| ==> vs[k] in finished
    requires DoneOk(vs, targets, finished, r) && UniquelyNamed(targets)
    ensures multiset(r) == multiset(targets) && UniquelyNamed(r)
    ensures FollowsDepends(targets + local, targets, r)
    ensures Acyclic(targets + local) ==> FollowsAll(targets + local, targets, r)
  {
    var D, U, order := Datas(vs), targets + local, Datas(finished);
    Finished(vs, finished);
    GraphClosed(vs, targets, local);
    PickedUnique(targets, order);
    forall p ensures p in r <==> p in targets { PickedMembers(targets, order, p); }
    SameMembers(r, targets);
    PickedFollows(D, U, targets, order);
    if Acyclic(U) {
      forall i, q | 0 <= i < |r| && q in targets && q != r[i] && Reaches(U, r[i], q) ensures q in r[..i] {
        AcyclicFollows(D, U, targets, order, i, q);
      }
    }
  }

  function Backward(s: seq<Pkg>): (t: seq<Pkg>)
    ensures |t| == |s| && forall k :: 0 <= k < |s| ==> t[k] == s[|s| - 1 - k]
  {
    if s == [] then [] else Backward(s[1..]) + [s[0]]
  }

  lemma {:induction false} BackwardPermutes(s: seq<Pkg>)
    ensures multiset(Backward(s)) == multiset(s)
  {
    if s != [] {
      BackwardPermutes(s[1..]);
      assert s == [s[0]] + s[1..];
    }
  }

  lemma BackwardUnique(s: seq<Pkg>)
    requires UniquelyNamed(s)
    ensures UniquelyNamed(Backward(s)) && Backward(Backward(s)) == s
    ensures forall p :: p in Backward(s) <==> p in s
  {
    forall p | p in s ensures p in Backward(s) {
      var k :| 0 <= k < |s| && s[k] == p;
      assert Backward(s)[|s| - 1 - k] == p;
    }
  }

  /** alpm_list_reverse */
  method Reverse(s: seq<Pkg>) returns (r: seq<Pkg>)
    ensures r == Backward(s)
  {
    r := [];
    for i := |s| downto 0
      invariant |r| == |s| - i && forall k :: 0 <= k < |r| ==> r[k] == s[|s| - 1 - k]
    {
      r := r + [s[i]];
    }
  }

  /** The graph and the search over it. */
  method Sorted(targets: seq<Pkg>, localpkgs: seq<Pkg>) returns (order: seq<Pkg>)
    requires UniquelyNamed(targets) && UniquelyNamed(localpkgs)
    requires forall k :: 0 <= k < |localpkgs| ==> !Named(targets, localpkgs[k].name)
    ensures multiset(order) == multiset(targets) && UniquelyNamed(order)
    ensures FollowsDepends(targets + localpkgs, targets, order)
    ensures Acyclic(targets + localpkgs) ==> FollowsAll(targets + localpkgs, targets, order)
  {
    if targets == [] {
      return [];
    }
    var vs := BuildGraph(targets, localpkgs);
    ghost var finished;
    order, finished := Search(vs, targets);
    OrderTheorem(vs, targets, localpkgs, finished, order);
  }

  /** The installed packages that are neither targets nor ignored. */
  method LocalPkgs(targets: seq<Pkg>, local: seq<Pkg>, ignore: seq<Pkg>) returns (localpkgs: seq<Pkg>)
    requires UniquelyNamed(local)
    ensures UniquelyNamed(localpkgs)
    ensures forall p :: p in localpkgs <==> p in local && !Named(targets, p.name) && !Named(ignore, p.name)
  {
    localpkgs := DropNamed(local, targets);
    localpkgs := DropNamed(localpkgs, ignore);
  }

  /** _alpm_sortbydeps: a permutation of the targets. Read backward if reversed, it follows their dependencies,
      on other targets or through local packages that are neither targets nor ignored. */
  method Sort(targets: seq<Pkg>, local: seq<Pkg>, ignore: seq<Pkg>, reverse: bool)
    returns (r: seq<Pkg>, ghost localpkgs: seq<Pkg>)
    requires UniquelyNamed(targets) && UniquelyNamed(local)
    ensures forall p :: p in localpkgs <==> p in local && !Named(targets, p.name) && !Named(ignore, p.name)
    ensures multiset(r) == multiset(targets) && UniquelyNamed(r)
    ensures FollowsDepends(targets + localpkgs, targets, if reverse then Backward(r) else r)
    ensures Acyclic(targets + localpkgs) ==>
      FollowsAll(targets + localpkgs, targets, if reverse then Backward(r) else r)
  {
    var pkgs := LocalPkgs(targets, local, ignore);
    var newtargs := Sorted(targets, pkgs);
    r, localpkgs := newtargs, pkgs;
    if reverse {
      r := Reverse(newtargs);
      BackwardPermutes(newtargs);
      BackwardUnique(newtargs);
    }
  }
}
