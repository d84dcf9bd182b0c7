/** The hook file matcher (lib/libalpm/hook.c): an in-place merge of the lists of installed and removed
    paths that moves what they share to a third list. */
module Hook {
  import opened Packages
  import opened AlpmList
  import opened HookMerge
  import Fgets

  function At<T>(ns: seq<Node<T>>, k: nat): (r: Node?<T>) {
    if k < |ns| then ns[k] else null
  }

  lemma NextIs<T>(head: Node?<T>, ns: seq<Node<T>>, k: nat)
    requires IsList(head, ns) && k < |ns|
    ensures ns[k].next == At(ns, k + 1)
  {}

  /** Takes out the node at position a. */
  method RemoveOne(head: Node<string>, item: Node<string>, ghost ns: seq<Node<string>>, ghost a: nat)
    returns (r: Node?<string>, next: Node?<string>)
    requires IsList(head, ns) && a < |ns| && item == ns[a]
    modifies ns
    ensures IsList(r, Without(ns, a)) && next == At(Without(ns, a), a)
  {
    NextIs(head, ns, a);
    next := item.next;
    r := RemoveItem(head, item, ns, a);
  }

  /** The list without c nodes from position a on. */
  ghost function Cut<A>(ns: seq<A>, a: nat, c: nat): (r: seq<A>)
    requires a + c <= |ns|
  {
    ns[..a] + ns[a + c..]
  }

  lemma CutOneMore<A>(ns: seq<A>, a: nat, c: nat)
    requires a + c < |ns|
    ensures a < |Cut(ns, a, c)| && Cut(ns, a, c)[a] == ns[a + c]
    ensures Without(Cut(ns, a, c), a) == Cut(ns, a, c + 1) && Within(Cut(ns, a, c), ns)
  {}

  lemma AtCut<T>(ns: seq<Node<T>>, a: nat, c: nat)
    requires a + c <= |ns|
    ensures At(Cut(ns, a, c), a) == At(ns, a + c)
  {}

  /** All nodes of this stretch hold the path. */
  ghost predicate AllHold(ns: seq<Node<string>>, a: nat, c: nat, path: string) {
    a + c <= |ns| && forall k :: a <= k < a + c ==> ns[k].data == path
  }

  lemma OneMoreHolds(ns: seq<Node<string>>, a: nat, c: nat, path: string)
    requires AllHold(ns, a, c, path) && a + c < |ns| && ns[a + c].data == path
    ensures AllHold(ns, a, c + 1, path)
  {}

  /** The state of the loop below after c rounds. */
  ghost predicate RunState(ns: seq<Node<string>>, a: nat, c: nat, path: string, head: Node?<string>,
                           next: Node?<string>)
    reads ns
  {
    AllHold(ns, a, c, path) && next == At(ns, a + c) && IsList(head, Cut(ns, a, c))
  }

  /** Takes out one more node of the run. */
  method RemoveNext(head: Node?<string>, item: Node<string>, path: string, ghost ns: seq<Node<string>>, ghost a: nat,
                    ghost c: nat)
    returns (r: Node?<string>, next: Node?<string>)
    requires RunState(ns, a, c, path, head, item) && item.data == path
    modifies ns
    ensures RunState(ns, a, c + 1, path, r, next)
  {
    CutOneMore(ns, a, c);
    AtCut(ns, a, c + 1);
    OneMoreHolds(ns, a, c, path);
    r, next := RemoveOne(head, item, Cut(ns, a, c), a);
  }

  /** Takes out the run of nodes from position a on that hold the path. */
  method RemoveRun(head: Node?<string>, start: Node?<string>, path: string, ghost ns: seq<Node<string>>, ghost a: nat)
    returns (r: Node?<string>, next: Node?<string>, ghost c: nat)
    requires IsList(head, ns) && a <= |ns| && start == At(ns, a)
    modifies ns
    ensures RunState(ns, a, c, path, r, next) && (next != null ==> next.data != path)
  {
    r, next, c := head, start, 0;
    assert Cut(ns, a, 0) == ns;
    while next != null && next.data == path
      invariant RunState(ns, a, c, path, r, next) && c <= |ns|
      decreases |ns| - c
    {
      r, next := RemoveNext(r, next, path, ns, a, c);
      c := c + 1;
    }
  }

  // ---------- the merge on paths ----------

  /** What is before positions a and b is done; going on from there leads to L, R and B. */
  ghost predicate Toward(X: seq<string>, a: nat, Y: seq<string>, b: nat, up: seq<string>, L: seq<string>,
                         R: seq<string>, B: seq<string>) {
    && a <= |X| && b <= |Y|
    && X[..a] + Left(X[a..], Y[b..]) == L && Y[..b] + Right(X[a..], Y[b..]) == R && up + Both(X[a..], Y[b..]) == B
  }

  lemma GoRight(X: seq<string>, a: nat, Y: seq<string>, b: nat, up: seq<string>, L: seq<string>, R: seq<string>,
                B: seq<string>)
    requires Toward(X, a, Y, b, up, L, R, B) && a < |X| && b < |Y| && Strcmp(X[a], Y[b]) > 0
    ensures Toward(X, a, Y, b + 1, up, L, R, B)
  {
    assert Y[b..][1..] == Y[b + 1..] && Y[..b + 1] == Y[..b] + [Y[b]];
  }

  lemma GoLeft(X: seq<string>, a: nat, Y: seq<string>, b: nat, up: seq<string>, L: seq<string>, R: seq<string>,
               B: seq<string>)
    requires Toward(X, a, Y, b, up, L, R, B) && a < |X| && b < |Y| && Strcmp(X[a], Y[b]) <= 0 && X[a] != Y[b]
    ensures Toward(X, a + 1, Y, b, up, L, R, B)
  {
    assert X[a..][1..] == X[a + 1..] && X[..a + 1] == X[..a] + [X[a]];
  }

  lemma GoBoth(X: seq<string>, a: nat, Y: seq<string>, b: nat, up: seq<string>, L: seq<string>, R: seq<string>,
               B: seq<string>, c: nat, d: nat)
    requires Toward(X, a, Y, b, up, L, R, B) && a < |X| && b < |Y| && X[a] == Y[b]
    requires c == RunLength(X[a..], X[a]) && d == RunLength(Y[b..], X[a])
    ensures Toward(Cut(X, a, c), a, Cut(Y, b, d), b, up + [X[a]], L, R, B)
  {
    StrcmpFacts(X[a], Y[b]);
    assert X[a..][0] == X[a] && Y[b..][0] == Y[b];
    assert Cut(X, a, c)[..a] == X[..a] && Cut(X, a, c)[a..] == X[a..][c..];
    assert Cut(Y, b, d)[..b] == Y[..b] && Cut(Y, b, d)[b..] == Y[b..][d..];
    assert up + ([X[a]] + Both(X[a..][c..], Y[b..][d..])) == (up + [X[a]]) + Both(X[a..][c..], Y[b..][d..]);
  }

  lemma Arrived(X: seq<string>, a: nat, Y: seq<string>, b: nat, up: seq<string>, L: seq<string>, R: seq<string>,
                B: seq<string>)
    requires Toward(X, a, Y, b, up, L, R, B) && (a == |X| || b == |Y|)
    ensures X == L && Y == R && up == B
  {
    assert X == X[..a] + X[a..] && Y == Y[..b] + Y[b..];
  }

  // ---------- the merge on lists ----------

  /** Two lists, and a node in each. */
  ghost predicate Pair(install: Node?<string>, ins: seq<Node<string>>, i: Node?<string>, a: nat,
                       remove: Node?<string>, rs: seq<Node<string>>, j: Node?<string>, b: nat)
    reads ins, rs
  {
    && IsList(install, ins) && IsList(remove, rs) && Disjoint(ins, rs)
    && a <= |ins| && b <= |rs| && i == At(ins, a) && j == At(rs, b)
  }

  /** Moves j past the removed paths that come before the installed one. */
  method SkipBefore(j0: Node?<string>, path: string, head: Node?<string>, ghost rs: seq<Node<string>>, ghost b0: nat,
                    ghost X: seq<string>, ghost a: nat, ghost up: seq<string>, ghost L: seq<string>,
                      ghost R: seq<string>, ghost B: seq<string>)
    returns (j: Node?<string>, ghost b: nat)
    requires IsList(head, rs) && b0 <= |rs| && j0 == At(rs, b0) && a < |X| && X[a] == path
    requires Toward(X, a, Data(rs), b0, up, L, R, B)
    ensures b <= |rs| && j == At(rs, b) && Toward(X, a, Data(rs), b, up, L, R, B)
    ensures j != null ==> Strcmp(path, j.data) <= 0
  {
    j, b := j0, b0;
    while j != null && Strcmp(path, j.data) > 0
      invariant b <= |rs| && j == At(rs, b) && Toward(X, a, Data(rs), b, up, L, R, B)
      decreases |rs| - b
    {
      GoRight(X, a, Data(rs), b, up, L, R, B);
      NextIs(head, rs, b);
      j, b := j.next, b + 1;
    }
  }

  lemma {:induction false} RunIs(s: seq<string>, path: string, c: nat)
    requires c <= |s| && (forall k :: 0 <= k < c ==> s[k] == path) && (c < |s| ==> s[c] != path)
    ensures RunLength(s, path) == c
  {
    if c > 0 { RunIs(s[1..], path, c - 1); }
  }

  lemma RunInData(ns: seq<Node<string>>, a: nat, c: nat, path: string)
    requires AllHold(ns, a, c, path) && (a + c < |ns| ==> ns[a + c].data != path)
    ensures RunLength(Data(ns)[a..], path) == c && Data(Cut(ns, a, c)) == Cut(Data(ns), a, c)
  {
    RunIs(Data(ns)[a..], path, c);
  }

  lemma CutDisjoint<A>(ns: seq<A>, ms: seq<A>, a: nat, c: nat)
    requires Disjoint(ns, ms) && a + c <= |ns|
    ensures Disjoint(Cut(ns, a, c), ms) && Disjoint(ms, Cut(ns, a, c))
  {
    assert forall k :: 0 <= k < |Cut(ns, a, c)| ==> Cut(ns, a, c)[k] == ns[if k < a then k else k + c];
  }

  lemma CutWithin<A>(ns: seq<A>, a: nat, c: nat)
    requires a + c <= |ns|
    ensures Within(Cut(ns, a, c), ns)
  {}

  /** Takes a shared path out of both lists. */
  method TakeOut(install0: Node?<string>, i0: Node<string>, remove0: Node?<string>, j0: Node<string>,
                 ghost ins: seq<Node<string>>, ghost a: nat, ghost rs: seq<Node<string>>, ghost b: nat)
    returns (install: Node?<string>, i: Node?<string>, remove: Node?<string>, j: Node?<string>, ghost c: nat,
      ghost d: nat)
    requires Pair(install0, ins, i0, a, remove0, rs, j0, b)
    modifies ins, rs
    ensures AllHold(ins, a, c, i0.data) && (a + c < |ins| ==> ins[a + c].data != i0.data)
    ensures AllHold(rs, b, d, i0.data) && (b + d < |rs| ==> rs[b + d].data != i0.data)
    ensures Pair(install, Cut(ins, a, c), i, a, remove, Cut(rs, b, d), j, b)
  {
    var path := i0.data;
    install, i, c := RemoveRun(install0, i0, path, ins, a);
    CutDisjoint(ins, rs, a, c);
    AtCut(ins, a, c);
    remove, j, d := RemoveRun(remove0, j0, path, rs, b);
    AtCut(rs, b, d);
    CutDisjoint(rs, Cut(ins, a, c), b, d);
  }

  /** One round of the merge, once the removed paths before the installed one have been passed. */
  method Compare(install0: Node?<string>, i0: Node<string>, remove0: Node?<string>, j0: Node<string>,
                 upgrade0: seq<string>,
                 ghost ins0: seq<Node<string>>, ghost a0: nat, ghost rs0: seq<Node<string>>, ghost b: nat,
                 ghost L: seq<string>, ghost R: seq<string>, ghost B: seq<string>)
    returns (install: Node?<string>, i: Node?<string>, remove: Node?<string>, j: Node?<string>, upgrade: seq<string>,
             ghost ins: seq<Node<string>>, ghost a: nat, ghost rs: seq<Node<string>>)
    requires Pair(install0, ins0, i0, a0, remove0, rs0, j0, b) && Strcmp(i0.data, j0.data) <= 0
    requires Toward(Data(ins0), a0, Data(rs0), b, upgrade0, L, R, B)
    modifies ins0, rs0
    ensures Pair(install, ins, i, a, remove, rs, j, b)
    ensures Toward(Data(ins), a, Data(rs), b, upgrade, L, R, B)
    ensures Within(ins, ins0) && Within(rs, rs0) && |ins| - a < |ins0| - a0
  {
    if Strcmp(i0.data, j0.data) == 0 {
      StrcmpFacts(i0.data, j0.data);
      ghost var c, d;
      install, i, remove, j, c, d := TakeOut(install0, i0, remove0, j0, ins0, a0, rs0, b);
      RunInData(ins0, a0, c, i0.data);
      RunInData(rs0, b, d, i0.data);
      GoBoth(Data(ins0), a0, Data(rs0), b, upgrade0, L, R, B, c, d);
      CutWithin(ins0, a0, c);
      CutWithin(rs0, b, d);
      upgrade, ins, a, rs := upgrade0 + [i0.data], Cut(ins0, a0, c), a0, Cut(rs0, b, d);
    } else {
      StrcmpFacts(i0.data, j0.data);
      GoLeft(Data(ins0), a0, Data(rs0), b, upgrade0, L, R, B);
      NextIs(install0, ins0, a0);
      install, i, remove, j, upgrade, ins, a, rs := install0, i0.next, remove0, j0, upgrade0, ins0, a0 + 1, rs0;
    }
  }

  /** The loop of the merge. */
  method MergeAll(install0: Node?<string>, remove0: Node?<string>, ghost ins0: seq<Node<string>>,
                  ghost rs0: seq<Node<string>>,
                  ghost L: seq<string>, ghost R: seq<string>, ghost B: seq<string>)
    returns (install: Node?<string>, remove: Node?<string>, upgrade: seq<string>, ghost ins: seq<Node<string>>,
      ghost rs: seq<Node<string>>)
    requires IsList(install0, ins0) && IsList(remove0, rs0) && Disjoint(ins0, rs0)
    requires Toward(Data(ins0), 0, Data(rs0), 0, [], L, R, B)
    modifies ins0, rs0
    ensures IsList(install, ins) && IsList(remove, rs) && Within(ins, ins0) && Within(rs, rs0)
    ensures Data(ins) == L && Data(rs) == R && upgrade == B
  {
    install, remove, upgrade, ins, rs := install0, remove0, [], ins0, rs0;
    var i, j, over := install, remove, false;
    ghost var a: nat, b: nat := 0, 0;
    while i != null && !over
      invariant Pair(install, ins, i, a, remove, rs, j, b) && Within(ins, ins0) && Within(rs, rs0)
      invariant over ==> b == |rs|
      invariant Toward(Data(ins), a, Data(rs), b, upgrade, L, R, B)
      decreases !over, |ins| - a
    {
      j, b := SkipBefore(j, i.data, remove, rs, b, Data(ins), a, upgrade, L, R, B);
      if j == null {
        over := true;
      } else {
        ghost var ins1, rs1 := ins, rs;
        install, i, remove, j, upgrade, ins, a, rs := Compare(install, i, remove, j, upgrade, ins, a, rs, b, L, R, B);
        StillWithin(ins, ins1, ins0);
        StillWithin(rs, rs1, rs0);
      }
    }
    AtEnd(ins, a, rs, b, upgrade, L, R, B);
  }

  lemma AtStart(X: seq<string>, Y: seq<string>)
    ensures Toward(X, 0, Y, 0, [], Left(X, Y), Right(X, Y), Both(X, Y))
  {
    assert X[0..] == X && Y[0..] == Y;
  }

  /** The in-place merge of two sorted lists. */
  method Partition(install0: Node?<string>, remove0: Node?<string>, ghost ins0: seq<Node<string>>,
                   ghost rs0: seq<Node<string>>)
    returns (install: Node?<string>, remove: Node?<string>, upgrade: seq<string>, ghost ins: seq<Node<string>>,
      ghost rs: seq<Node<string>>)
    requires IsList(install0, ins0) && IsList(remove0, rs0) && Disjoint(ins0, rs0)
    modifies ins0, rs0
    ensures IsList(install, ins) && IsList(remove, rs)
    ensures Data(ins) == Left(Data(ins0), Data(rs0)) && Data(rs) == Right(Data(ins0), Data(rs0))
    ensures upgrade == Both(Data(ins0), Data(rs0))
  {
    ghost var X, Y := Data(ins0), Data(rs0);
    AtStart(X, Y);
    install, remove, upgrade, ins, rs := MergeAll(install0, remove0, ins0, rs0, Left(X, Y), Right(X, Y), Both(X, Y));
  }

  lemma StillWithin<A>(s: seq<A>, t: seq<A>, u: seq<A>)
    requires Within(s, t) && Within(t, u)
    ensures Within(s, u)
  {
    forall k | 0 <= k < |s| ensures s[k] in u {
      var j :| 0 <= j < |t| && t[j] == s[k];
    }
  }

  lemma AtEnd(ins: seq<Node<string>>, a: nat, rs: seq<Node<string>>, b: nat, up: seq<string>, L: seq<string>,
              R: seq<string>, B: seq<string>)
    requires Toward(Data(ins), a, Data(rs), b, up, L, R, B) && (a == |ins| || b == |rs|)
    ensures Data(ins) == L && Data(rs) == R && up == B
  {
    Arrived(Data(ins), a, Data(rs), b, up, L, R, B);
  }

  lemma TakeAway<A>(s: seq<A>, k: nat)
    requires k < |s|
    ensures multiset(s) == multiset(Without(s, k)) + multiset{s[k]}
  {
    MultisetSplit(s, k);
    MultisetSplit(s[k..], 1);
    assert s[k..][..1] == [s[k]] && s[k..][1..] == s[k + 1..];
    MultisetSplit(Without(s, k), k);
    assert Without(s, k)[..k] == s[..k] && Without(s, k)[k..] == s[k + 1..];
  }

  lemma Cancel<A>(x: multiset<A>, y: multiset<A>, a: A)
    requires x + multiset{a} == y + multiset{a}
    ensures x == y
  {
    assert x == (x + multiset{a}) - multiset{a} && y == (y + multiset{a}) - multiset{a};
  }

  lemma DataWithout(ns: seq<Node<string>>, k: nat)
    requires k < |ns|
    ensures multiset(Data(ns)) == multiset(Data(Without(ns, k))) + multiset{ns[k].data}
  {
    TakeAway(Data(ns), k);
    assert Without(Data(ns), k) == Data(Without(ns, k));
  }

  lemma {:induction false} DataMultiset(ns: seq<Node<string>>, ms: seq<Node<string>>)
    requires multiset(ns) == multiset(ms)
    ensures multiset(Data(ns)) == multiset(Data(ms))
    decreases |ns|
  {
    if ns == [] {
      assert |multiset(ms)| == 0;
    } else {
      assert ns[0] in multiset(ms);
      var k :| 0 <= k < |ms| && ms[k] == ns[0];
      TakeAway(ns, 0);
      TakeAway(ms, k);
      Cancel(multiset(Without(ns, 0)), multiset(Without(ms, k)), ns[0]);
      DataMultiset(Without(ns, 0), Without(ms, k));
      DataWithout(ns, 0);
      DataWithout(ms, k);
    }
  }

  lemma SortedPaths(ns: seq<Node<string>>)
    ensures InOrder(Data(MergeSort(ns, Strcmp))) && multiset(Data(MergeSort(ns, Strcmp))) == multiset(Data(ns))
    ensures Within(MergeSort(ns, Strcmp), ns)
  {
    StrcmpOrders();
    MergeSortTheorem(ns, Strcmp);
    DataMultiset(MergeSort(ns, Strcmp), ns);
    MergeSortMembers(ns, Strcmp);
  }

  lemma WithinDisjoint<A>(s: seq<A>, s0: seq<A>, t: seq<A>, t0: seq<A>)
    requires Disjoint(s0, t0) && Within(s, s0) && Within(t, t0)
    ensures Disjoint(s, t)
  {
    forall i, j | 0 <= i < |s| && 0 <= j < |t| ensures s[i] != t[j] {
      assert s[i] in s0 && t[j] in t0;
    }
  }

  /** What the matcher promises about lists of installed and removed paths in any order. */
  ghost predicate Partitioned(x: seq<string>, y: seq<string>, install: seq<string>, remove: seq<string>,
                              upgrade: seq<string>) {
    Keeps(install, x, y) && Keeps(remove, y, x) && Shares(upgrade, x, y)
  }

  lemma SamePaths(x: seq<string>, y: seq<string>)
    requires multiset(x) == multiset(y)
    ensures forall q :: q in x <==> q in y
  {
    forall q ensures q in x <==> q in y {
      assert q in x <==> q in multiset(x);
    }
  }

  lemma SameWhenSorted(x: seq<string>, x0: seq<string>, y: seq<string>, y0: seq<string>, l: seq<string>, r: seq<string>,
                       b: seq<string>)
    requires multiset(x) == multiset(x0) && multiset(y) == multiset(y0) && Partitioned(x, y, l, r, b)
    ensures Partitioned(x0, y0, l, r, b)
  {
    SamePaths(x, x0);
    SamePaths(y, y0);
  }

  /** Sorts both lists. */
  method SortBoth(install0: Node?<string>, isize: nat, remove0: Node?<string>, rsize: nat,
                  ghost ins0: seq<Node<string>>, ghost rs0: seq<Node<string>>)
    returns (install: Node?<string>, remove: Node?<string>)
    requires IsList(install0, ins0) && IsList(remove0, rs0) && Disjoint(ins0, rs0) && isize == |ins0| && rsize == |rs0|
    modifies ins0, rs0
    ensures IsList(install, MergeSort(ins0, Strcmp)) && IsList(remove, MergeSort(rs0, Strcmp))
  {
    MergeSortMembers(ins0, Strcmp);
    WithinDisjoint(MergeSort(ins0, Strcmp), ins0, rs0, rs0);
    install := MSort(install0, isize, Strcmp, ins0);
    remove := MSort(remove0, rsize, Strcmp, rs0);
  }

  /** The file matcher, from the collected paths on: afterwards the first list holds the paths that are only
      installed, the second those that are only removed, and the third each path that is both, once. */
  method MatchFile(install0: Node?<string>, isize: nat, remove0: Node?<string>, rsize: nat,
                   ghost ins0: seq<Node<string>>, ghost rs0: seq<Node<string>>)
    returns (install: Node?<string>, remove: Node?<string>, upgrade: seq<string>, ghost ins: seq<Node<string>>,
      ghost rs: seq<Node<string>>)
    requires IsList(install0, ins0) && IsList(remove0, rs0) && Disjoint(ins0, rs0) && isize == |ins0| && rsize == |rs0|
    modifies ins0, rs0
    ensures IsList(install, ins) && IsList(remove, rs)
    ensures Partitioned(Data(ins0), Data(rs0), Data(ins), Data(rs), upgrade)
  {
    install, remove := SortBoth(install0, isize, remove0, rsize, ins0, rs0);
    ghost var x, y := MergeSort(ins0, Strcmp), MergeSort(rs0, Strcmp);
    SortedPaths(ins0);
    SortedPaths(rs0);
    WithinDisjoint(x, ins0, y, rs0);
    MergePartitions(Data(x), Data(y));
    SameWhenSorted(Data(x), Data(ins0), Data(y), Data(rs0), Left(Data(x), Data(y)), Right(Data(x), Data(y)),
      Both(Data(x), Data(y)));
    install, remove, upgrade, ins, rs := Partition(install, remove, x, y);
  }

  // ---------- removing repetitions ----------

  /** Squeezing the paths from position a on, and keeping those before. */
  ghost function SqueezedFrom(s: seq<string>, a: nat): (r: seq<string>)
    requires a <= |s|
  {
    s[..a] + Squeezed(s[a..])
  }

  lemma CutParts(X: seq<string>, a: nat, c: nat)
    requires a + 1 + c <= |X|
    ensures Cut(X, a + 1, c)[..a + 1] == X[..a] + [X[a]] && Cut(X, a + 1, c)[a + 1..] == X[a + 1..][c..]
  {}

  lemma SqueezeHead(X: seq<string>, a: nat)
    requires a < |X|
    ensures Squeezed(X[a..]) == [X[a]] + Squeezed(AfterRun(X[a + 1..], X[a]))
  {
    assert X[a..][0] == X[a] && X[a..][1..] == X[a + 1..];
  }

  lemma SqueezeStep(X: seq<string>, a: nat, c: nat)
    requires a < |X| && c == RunLength(X[a + 1..], X[a])
    ensures SqueezedFrom(X, a) == SqueezedFrom(Cut(X, a + 1, c), a + 1)
  {
    SqueezeHead(X, a);
    CutParts(X, a, c);
    Regroup(X[..a], [X[a]], Squeezed(X[a + 1..][c..]));
  }

  /** Removes what repeats the path at position a. */
  method DedupAt(list0: Node?<string>, i: Node<string>, ghost ns0: seq<Node<string>>, ghost a: nat)
    returns (list: Node?<string>, next: Node?<string>, ghost ns: seq<Node<string>>)
    requires IsList(list0, ns0) && a < |ns0| && i == ns0[a]
    modifies ns0
    ensures IsList(list, ns) && Within(ns, ns0) && a + 1 <= |ns| <= |ns0| && next == At(ns, a + 1)
    ensures SqueezedFrom(Data(ns0), a) == SqueezedFrom(Data(ns), a + 1)
  {
    NextIs(list0, ns0, a);
    ghost var c;
    list, next, c := RemoveRun(list0, i.next, i.data, ns0, a + 1);
    RunInData(ns0, a + 1, c, i.data);
    SqueezeStep(Data(ns0), a, c);
    AtCut(ns0, a + 1, c);
    CutWithin(ns0, a + 1, c);
    ns := Cut(ns0, a + 1, c);
  }

  lemma SqueezeEnds(X: seq<string>)
    ensures SqueezedFrom(X, 0) == Squeezed(X) && SqueezedFrom(X, |X|) == X
  {
    assert X[0..] == X && X[..|X|] == X;
  }

  /** _alpm_strlist_dedup */
  method Dedup(list0: Node?<string>, ghost ns0: seq<Node<string>>)
    returns (list: Node?<string>, ghost ns: seq<Node<string>>)
    requires IsList(list0, ns0)
    modifies ns0
    ensures IsList(list, ns) && Data(ns) == Squeezed(Data(ns0))
  {
    list, ns := list0, ns0;
    var i := list0;
    ghost var a: nat := 0;
    SqueezeEnds(Data(ns0));
    while i != null
      invariant IsList(list, ns) && Within(ns, ns0) && a <= |ns| && i == At(ns, a)
      invariant SqueezedFrom(Data(ns), a) == Squeezed(Data(ns0))
      decreases |ns| - a
    {
      list, i, ns := DedupAt(list, i, ns, a);
      a := a + 1;
    }
    SqueezeEnds(Data(ns));
  }

  // ---------- feeding the targets to a hook ----------

  /** The targets, each on a line of its own. */
  function Lines(targets: seq<string>): (s: string) {
    if targets == [] then "" else targets[0] + ("\n" + Lines(targets[1..]))
  }

  /** Read line by line, the text gives back the targets, and nothing after the last newline. */
  lemma {:induction false} LinesAre(targets: seq<string>)
    requires forall k :: 0 <= k < |targets| ==> '\n' !in targets[k]
    ensures Fgets.Split(Lines(targets)) == targets + [""]
  {
    if targets == [] {
      Fgets.OneEnd("", 0);
    } else {
      LinesAre(targets[1..]);
      var t, rest := targets[0], Lines(targets[1..]);
      var s := t + ("\n" + rest);
      assert s[..|t|] == t && s[|t|] == '\n' && s[|t| + 1..] == rest;
      Fgets.OneEnd(s, |t|);
      assert [t] + (targets[1..] + [""]) == targets + [""];
    }
  }

  /** Writing a whole target. */
  lemma WriteOne(written: string, pos: seq<string>)
    requires pos != []
    ensures written + Lines(pos) == (written + (pos[0] + "\n")) + Lines(pos[1..])
  {
    var t, rest := pos[0], Lines(pos[1..]);
    Regroup(t, "\n", rest);
    Regroup(written, t + "\n", rest);
  }

  /** Writing the beginning of a target. */
  lemma WritePart(written: string, pos: seq<string>, n: nat)
    requires pos != [] && n <= |pos[0]|
    ensures written + Lines(pos) == (written + pos[0][..n]) + Lines([pos[0][n..]] + pos[1..])
  {
    var a, b, rest := pos[0][..n], pos[0][n..], "\n" + Lines(pos[1..]);
    assert pos[0] == a + b;
    assert ([b] + pos[1..])[1..] == pos[1..];
    Regroup(a, b, rest);
    Regroup(written, a, b + rest);
  }

  /** _alpm_hook_feed_targets: fills a buffer of any size, and cuts the first target left if it does not fit.
      What is written, followed by what is left to write, is always the same text. */
  method FeedTargets(pos0: seq<string>, needed: nat) returns (written: string, pos: seq<string>)
    ensures written + Lines(pos) == Lines(pos0)
    ensures |written| <= needed && (|written| < needed ==> pos == [])
  {
    written, pos := "", pos0;
    while pos != [] && |pos[0]| + 1 <= needed - |written|
      invariant written + Lines(pos) == Lines(pos0) && |written| <= needed
      decreases |pos|
    {
      WriteOne(written, pos);
      written, pos := written + (pos[0] + "\n"), pos[1..];
    }
    var remaining := needed - |written|;
    if pos != [] && remaining > 0 {
      WritePart(written, pos, remaining);
      written, pos := written + pos[0][..remaining], [pos[0][remaining..]] + pos[1..];
    }
  }
}
