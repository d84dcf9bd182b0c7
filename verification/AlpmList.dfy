/** The linked list of lib/libalpm/alpm_list.c: doubly linked, null-terminated through `next`,
    and with the head's `prev` pointing at the tail. */
module AlpmList {
  import opened Orders

  class Node<T> {
    const data: T
    var prev: Node?<T>
    var next: Node?<T>

    constructor (data: T)
      ensures this.data == data && prev == this && next == null
    {
      this.data := data;
      this.prev := this;
      this.next := null;
    }
  }

  ghost predicate Distinct<A>(s: seq<A>) {
    forall i, j :: 0 <= i < j < |s| ==> s[i] != s[j]
  }

  ghost predicate Disjoint<A>(s: seq<A>, t: seq<A>) {
    forall i, j :: 0 <= i < |s| && 0 <= j < |t| ==> s[i] != t[j]
  }

  ghost predicate Within<A>(s: seq<A>, t: seq<A>) {
    forall i :: 0 <= i < |s| ==> s[i] in t
  }

  /** The nodes ns are linked to one another in both directions and the last one ends the list. */
  ghost predicate Chain<T>(ns: seq<Node<T>>)
    reads ns
  {
    && (forall k {:trigger ns[k].next} :: 0 <= k < |ns| - 1 ==> ns[k].next == ns[k + 1])
    && (forall k {:trigger ns[k].prev} :: 0 < k < |ns| ==> ns[k].prev == ns[k - 1])
    && (ns != [] ==> ns[|ns| - 1].next == null)
  }

  function Head<T>(ns: seq<Node<T>>): (r: Node?<T>) {
    if ns == [] then null else ns[0]
  }

  /** `head` is the well-formed list made of exactly the nodes ns, in that order. */
  ghost predicate IsList<T>(head: Node?<T>, ns: seq<Node<T>>)
    reads ns
  {
    Distinct(ns) && Chain(ns) && head == Head(ns) && (ns != [] ==> ns[0].prev == ns[|ns| - 1])
  }

  ghost function Data<T>(ns: seq<Node<T>>): (s: seq<T>)
    ensures |s| == |ns|
    ensures forall k :: 0 <= k < |ns| ==> s[k] == ns[k].data
  {
    seq(|ns|, k requires 0 <= k < |ns| => ns[k].data)
  }

  lemma DistinctAppend<A>(s: seq<A>, t: seq<A>)
    ensures Distinct(s + t) <==> Distinct(s) && Distinct(t) && Disjoint(s, t)
  {
    var all := s + t;
    assert forall k :: 0 <= k < |s| ==> all[k] == s[k];
    assert forall k :: 0 <= k < |t| ==> all[|s| + k] == t[k];
    if Distinct(s) && Distinct(t) && Disjoint(s, t) {
      forall i, j | 0 <= i < j < |all|
        ensures all[i] != all[j]
      {
        if i < |s| <= j { assert all[i] in s && all[j] in t; }
        if |s| <= i { assert all[i] == t[i - |s|] && all[j] == t[j - |s|]; }
      }
    }
  }

  lemma ChainTail<T>(ns: seq<Node<T>>)
    requires ns != [] && Chain(ns) && Distinct(ns)
    ensures Chain(ns[1..]) && Distinct(ns[1..]) && ns[0] !in ns[1..] && ns[0].next == Head(ns[1..])
    ensures Within(ns[1..], ns)
  {
    assert forall k :: 0 <= k < |ns| - 1 ==> ns[1..][k] == ns[k + 1];
  }

  // ---------- specifications of merge and sort, on sequences of nodes ----------

  ghost function Merge<T>(ls: seq<Node<T>>, rs: seq<Node<T>>, cmp: (T, T) -> int): (r: seq<Node<T>>) {
    if ls == [] then rs
    else if rs == [] then ls
    else if cmp(ls[0].data, rs[0].data) <= 0 then [ls[0]] + Merge(ls[1..], rs, cmp)
    else [rs[0]] + Merge(ls, rs[1..], cmp)
  }

  ghost function MergeSort<T>(ns: seq<Node<T>>, cmp: (T, T) -> int): (r: seq<Node<T>>) {
    if |ns| <= 1 then ns
    else Merge(MergeSort(ns[..|ns| / 2], cmp), MergeSort(ns[|ns| / 2..], cmp), cmp)
  }

  ghost predicate Sorted<T>(ns: seq<Node<T>>, cmp: (T, T) -> int) {
    forall i, j :: 0 <= i < j < |ns| ==> cmp(ns[i].data, ns[j].data) <= 0
  }

  /** The nodes of ns that compare equal to key, in their order in ns. */
  ghost function Class<T>(key: T, ns: seq<Node<T>>, cmp: (T, T) -> int): (r: seq<Node<T>>) {
    if ns == [] then []
    else (if cmp(ns[0].data, key) == 0 then [ns[0]] else []) + Class(key, ns[1..], cmp)
  }

  lemma {:induction false} MergePermutes<T>(ls: seq<Node<T>>, rs: seq<Node<T>>, cmp: (T, T) -> int)
    ensures multiset(Merge(ls, rs, cmp)) == multiset(ls) + multiset(rs)
  {
    if ls != [] && rs != [] {
      assert ls == [ls[0]] + ls[1..] && rs == [rs[0]] + rs[1..];
      if cmp(ls[0].data, rs[0].data) <= 0 { MergePermutes(ls[1..], rs, cmp); } else { MergePermutes(ls, rs[1..], cmp); }
    }
  }

  lemma MultisetSplit<A>(s: seq<A>, h: nat)
    requires h <= |s|
    ensures multiset(s) == multiset(s[..h]) + multiset(s[h..])
  {
    assert s == s[..h] + s[h..];
  }

  lemma {:induction false} MergeSortPermutes<T>(ns: seq<Node<T>>, cmp: (T, T) -> int)
    ensures multiset(MergeSort(ns, cmp)) == multiset(ns)
  {
    if |ns| > 1 {
      var h := |ns| / 2;
      MergeSortPermutes(ns[..h], cmp);
      MergeSortPermutes(ns[h..], cmp);
      MergePermutes(MergeSort(ns[..h], cmp), MergeSort(ns[h..], cmp), cmp);
      MultisetSplit(ns, h);
    }
  }

  /** Sorted, stated on neighbours only. */
  ghost predicate Ordered<T>(ns: seq<Node<T>>, cmp: (T, T) -> int) {
    |ns| <= 1 || (cmp(ns[0].data, ns[1].data) <= 0 && Ordered(ns[1..], cmp))
  }

  lemma {:induction false} OrderedSorted<T(!new)>(ns: seq<Node<T>>, cmp: (T, T) -> int)
    requires IsOrder(cmp)
    ensures Ordered(ns, cmp) <==> Sorted(ns, cmp)
  {
    if |ns| > 1 {
      var t := ns[1..];
      OrderedSorted(t, cmp);
      if Ordered(ns, cmp) {
        assert forall i, j :: 0 < i < j < |ns| ==> ns[i] == t[i - 1] && ns[j] == t[j - 1];
        forall j | 1 < j < |ns| ensures cmp(ns[0].data, ns[j].data) <= 0 {
          assert cmp(t[0].data, t[j - 1].data) <= 0;
        }
      }
    }
  }

  lemma {:induction false} MergeOrders<T>(ls: seq<Node<T>>, rs: seq<Node<T>>, cmp: (T, T) -> int)
    requires forall x, y :: x in Data(ls) && y in Data(rs) && cmp(x, y) > 0 ==> cmp(y, x) <= 0
    requires Ordered(ls, cmp) && Ordered(rs, cmp)
    ensures Ordered(Merge(ls, rs, cmp), cmp)
  {
    if ls != [] && rs != [] {
      assert Data(ls[1..]) == Data(ls)[1..] && Data(rs[1..]) == Data(rs)[1..];
      if cmp(ls[0].data, rs[0].data) <= 0 {
        MergeOrders(ls[1..], rs, cmp);
        assert Merge(ls, rs, cmp)[1..] == Merge(ls[1..], rs, cmp);
      } else {
        assert ls[0].data == Data(ls)[0] && rs[0].data == Data(rs)[0];
        MergeOrders(ls, rs[1..], cmp);
        assert Merge(ls, rs, cmp)[1..] == Merge(ls, rs[1..], cmp);
      }
    }
  }

  lemma MergeSorts<T(!new)>(ls: seq<Node<T>>, rs: seq<Node<T>>, cmp: (T, T) -> int)
    requires IsOrder(cmp) && Sorted(ls, cmp) && Sorted(rs, cmp)
    ensures Sorted(Merge(ls, rs, cmp), cmp)
  {
    OrderedSorted(ls, cmp);
    OrderedSorted(rs, cmp);
    MergeOrders(ls, rs, cmp);
    OrderedSorted(Merge(ls, rs, cmp), cmp);
  }

  lemma Regroup<A>(x: seq<A>, y: seq<A>, z: seq<A>)
    ensures x + (y + z) == (x + y) + z
  {}

  lemma {:induction false} ClassAppend<T>(key: T, a: seq<Node<T>>, b: seq<Node<T>>, cmp: (T, T) -> int)
    ensures Class(key, a + b, cmp) == Class(key, a, cmp) + Class(key, b, cmp)
  {
    if a == [] {
      assert a + b == b;
    } else {
      assert (a + b)[1..] == a[1..] + b;
      ClassAppend(key, a[1..], b, cmp);
      Regroup(if cmp(a[0].data, key) == 0 then [a[0]] else [], Class(key, a[1..], cmp), Class(key, b, cmp));
    }
  }

  lemma {:induction false} ClassEmpty<T>(key: T, ns: seq<Node<T>>, cmp: (T, T) -> int)
    requires forall i :: 0 <= i < |ns| ==> cmp(ns[i].data, key) != 0
    ensures Class(key, ns, cmp) == []
  {
    if ns != [] { ClassEmpty(key, ns[1..], cmp); }
  }

  /** The class of a list with one more node in front. */
  lemma ClassCons<T>(key: T, x: Node<T>, ns: seq<Node<T>>, cmp: (T, T) -> int)
    ensures Class(key, [x] + ns, cmp) == (if cmp(x.data, key) == 0 then [x] else []) + Class(key, ns, cmp)
  {
    assert ([x] + ns)[1..] == ns;
  }

  /** Nothing in a sorted list that starts after x is equal to what x is equal to. */
  lemma NoneEqual<T(!new)>(key: T, ls: seq<Node<T>>, x: Node<T>, cmp: (T, T) -> int)
    requires IsOrder(cmp) && Sorted(ls, cmp) && ls != [] && cmp(ls[0].data, x.data) > 0 && cmp(x.data, key) == 0
    ensures Class(key, ls, cmp) == []
  {
    forall i | 0 <= i < |ls| ensures cmp(ls[i].data, key) != 0 {
      if i > 0 { assert cmp(ls[0].data, ls[i].data) <= 0; }
    }
    ClassEmpty(key, ls, cmp);
  }

  lemma StableLeft<T>(key: T, ls: seq<Node<T>>, rs: seq<Node<T>>, m: seq<Node<T>>, cmp: (T, T) -> int)
    requires ls != [] && Class(key, m, cmp) == Class(key, ls[1..], cmp) + Class(key, rs, cmp)
    ensures Class(key, [ls[0]] + m, cmp) == Class(key, ls, cmp) + Class(key, rs, cmp)
  {
    ClassCons(key, ls[0], m, cmp);
    Regroup(if cmp(ls[0].data, key) == 0 then [ls[0]] else [], Class(key, ls[1..], cmp), Class(key, rs, cmp));
  }

  lemma StableRight<T(!new)>(key: T, ls: seq<Node<T>>, rs: seq<Node<T>>, m: seq<Node<T>>, cmp: (T, T) -> int)
    requires IsOrder(cmp) && Sorted(ls, cmp) && ls != [] && rs != [] && cmp(ls[0].data, rs[0].data) > 0
    requires Class(key, m, cmp) == Class(key, ls, cmp) + Class(key, rs[1..], cmp)
    ensures Class(key, [rs[0]] + m, cmp) == Class(key, ls, cmp) + Class(key, rs, cmp)
  {
    var c, d := Class(key, ls, cmp), Class(key, rs[1..], cmp);
    ClassCons(key, rs[0], m, cmp);
    assert rs == [rs[0]] + rs[1..];
    ClassCons(key, rs[0], rs[1..], cmp);
    if cmp(rs[0].data, key) == 0 {
      NoneEqual(key, ls, rs[0], cmp);
      Empty(d);
      Empty([rs[0]] + d);
    } else {
      Empty(d);
      Empty(c + d);
    }
  }

  lemma Empty<A>(s: seq<A>)
    ensures [] + s == s
  {}

  /** A merge keeps equal elements in order, those of the left list first. */
  lemma {:induction false} MergeStable<T(!new)>(key: T, ls: seq<Node<T>>, rs: seq<Node<T>>, cmp: (T, T) -> int)
    requires IsOrder(cmp) && Sorted(ls, cmp)
    ensures Class(key, Merge(ls, rs, cmp), cmp) == Class(key, ls, cmp) + Class(key, rs, cmp)
  {
    if ls != [] && rs != [] {
      if cmp(ls[0].data, rs[0].data) <= 0 {
        MergeStable(key, ls[1..], rs, cmp);
        StableLeft(key, ls, rs, Merge(ls[1..], rs, cmp), cmp);
      } else {
        MergeStable(key, ls, rs[1..], cmp);
        StableRight(key, ls, rs, Merge(ls, rs[1..], cmp), cmp);
      }
    }
  }

  lemma {:induction false} MergeSortSorted<T(!new)>(ns: seq<Node<T>>, cmp: (T, T) -> int)
    requires IsOrder(cmp)
    ensures Sorted(MergeSort(ns, cmp), cmp)
  {
    if |ns| > 1 {
      var h := |ns| / 2;
      MergeSortSorted(ns[..h], cmp);
      MergeSortSorted(ns[h..], cmp);
      MergeSorts(MergeSort(ns[..h], cmp), MergeSort(ns[h..], cmp), cmp);
    }
  }

  lemma ClassSplit<T>(key: T, ns: seq<Node<T>>, h: nat, cmp: (T, T) -> int)
    requires h <= |ns|
    ensures Class(key, ns, cmp) == Class(key, ns[..h], cmp) + Class(key, ns[h..], cmp)
  {
    ClassAppend(key, ns[..h], ns[h..], cmp);
    assert ns == ns[..h] + ns[h..];
  }

  lemma {:induction false} MergeSortStable<T(!new)>(key: T, ns: seq<Node<T>>, cmp: (T, T) -> int)
    requires IsOrder(cmp)
    ensures Class(key, MergeSort(ns, cmp), cmp) == Class(key, ns, cmp)
  {
    if |ns| > 1 {
      var h := |ns| / 2;
      ClassSplit(key, ns, h, cmp);
      MergeSortStable(key, ns[..h], cmp);
      MergeSortStable(key, ns[h..], cmp);
      MergeSortSorted(ns[..h], cmp);
      MergeStable(key, MergeSort(ns[..h], cmp), MergeSort(ns[h..], cmp), cmp);
    }
  }

  /** alpm_list_msort sorts stably: the result is ordered, a permutation, and keeps equal elements in order. */
  lemma MergeSortTheorem<T(!new)>(ns: seq<Node<T>>, cmp: (T, T) -> int)
    requires IsOrder(cmp)
    ensures Sorted(MergeSort(ns, cmp), cmp)
    ensures multiset(MergeSort(ns, cmp)) == multiset(ns)
    ensures forall key :: Class(key, MergeSort(ns, cmp), cmp) == Class(key, ns, cmp)
  {
    MergeSortPermutes(ns, cmp);
    MergeSortSorted(ns, cmp);
    forall key ensures Class(key, MergeSort(ns, cmp), cmp) == Class(key, ns, cmp) {
      MergeSortStable(key, ns, cmp);
    }
  }

  // ---------- operations ----------

  /** Hangs the chain ss after the last node of the chain fs. */
  method Link<T>(last: Node<T>, second: Node<T>, ghost fs: seq<Node<T>>, ghost ss: seq<Node<T>>)
    requires fs != [] && ss != [] && last == fs[|fs| - 1] && second == ss[0]
    requires Chain(fs) && Chain(ss) && Disjoint(fs, ss) && Distinct(fs) && Distinct(ss)
    modifies last`next, second`prev
    ensures Chain(fs + ss) && Distinct(fs + ss)
  {
    last.next := second;
    second.prev := last;
    ghost var all, n := fs + ss, |fs|;
    forall k | 0 < k < |all|
      ensures all[k].prev == all[k - 1] && all[k - 1].next == all[k]
    {
      if k < n {
        assert all[k] == fs[k] && all[k - 1] == fs[k - 1] && fs[k] in fs && fs[k - 1] != fs[n - 1];
      } else if k == n {
        assert all[k] == ss[0] && all[k - 1] == fs[n - 1];
      } else {
        assert all[k] == ss[k - n] && all[k - 1] == ss[k - 1 - n] && ss[k - 1 - n] in ss;
      }
    }
    assert all[|all| - 1] == ss[|ss| - 1] && ss[|ss| - 1] in ss;
    DistinctAppend(fs, ss);
  }

  /** Points the head's back reference at the tail, which makes a chain a list. */
  method SetTail<T>(head: Node<T>, tail: Node?<T>, ghost ns: seq<Node<T>>)
    requires ns != [] && Chain(ns) && Distinct(ns) && head == ns[0] && tail == ns[|ns| - 1]
    modifies head`prev
    ensures IsList(head, ns)
  {
    head.prev := tail;
    assert forall k :: 0 < k < |ns| ==> ns[k] != ns[0];
  }

  method Join<T>(first: Node?<T>, second: Node?<T>, ghost fs: seq<Node<T>>, ghost ss: seq<Node<T>>)
    returns (r: Node?<T>)
    requires IsList(first, fs) && IsList(second, ss) && Disjoint(fs, ss)
    modifies fs, ss
    ensures IsList(r, fs + ss)
  {
    if first == null {
      assert fs + ss == ss;
      return second;
    }
    if second == null {
      assert fs + ss == fs;
      return first;
    }
    var tmp := first.prev;
    var tail := second.prev;
    Link(tmp, second, fs, ss);
    SetTail(first, tail, fs + ss);
    r := first;
  }

  /** The state of a merge: the chain done is final, the chains L and R are still to be merged. */
  ghost predicate Merging<T>(done: seq<Node<T>>, L: seq<Node<T>>, R: seq<Node<T>>)
    reads done, L, R
  {
    && done != [] && Chain(done) && Chain(L) && Chain(R)
    && Distinct(done) && Distinct(L) && Distinct(R)
    && Disjoint(done, L) && Disjoint(done, R) && Disjoint(L, R)
  }

  lemma MergingSymmetric<T>(done: seq<Node<T>>, L: seq<Node<T>>, R: seq<Node<T>>)
    requires Merging(done, L, R)
    ensures Merging(done, R, L)
  {}

  /** Moves the first node of the chain L to the end of the chain done. */
  method Take<T>(last: Node<T>, node: Node<T>, ghost done: seq<Node<T>>, ghost L: seq<Node<T>>, ghost R: seq<Node<T>>)
    returns (next: Node?<T>)
    requires Merging(done, L, R) && L != [] && last == done[|done| - 1] && node == L[0]
    modifies last`next, node`next, node`prev
    ensures Merging(done + [node], L[1..], R) && next == Head(L[1..])
  {
    ChainTail(L);
    next := node.next;
    node.next := null;
    assert Chain([node]) && Disjoint(done, [node]);
    Link(last, node, done, [node]);
  }

  method MMerge<T>(left0: Node?<T>, right0: Node?<T>, cmp: (T, T) -> int,
                   ghost ls: seq<Node<T>>, ghost rs: seq<Node<T>>)
    returns (newlist: Node?<T>)
    requires IsList(left0, ls) && IsList(right0, rs) && Disjoint(ls, rs)
    modifies ls, rs
    ensures IsList(newlist, Merge(ls, rs, cmp))
  {
    if left0 == null { return right0; }
    if right0 == null { return left0; }
    var leftTail, rightTail := left0.prev, right0.prev;
    ChainTail(ls);
    ChainTail(rs);
    if cmp(left0.data, right0.data) <= 0 {
      var left := Detach(left0, ls, rs);
      newlist := MergeRest(left0, left, right0, leftTail, rightTail, cmp, ls[1..], rs);
    } else {
      var right := Detach(right0, rs, ls);
      MergingSymmetric([right0], rs[1..], ls);
      newlist := MergeRest(right0, left0, right, leftTail, rightTail, cmp, ls, rs[1..]);
    }
  }

  /** Makes the first node of a list the start of the merged one. */
  method Detach<T>(first: Node<T>, ghost ns: seq<Node<T>>, ghost ms: seq<Node<T>>) returns (rest: Node?<T>)
    requires IsList(first, ns) && Chain(ms) && Distinct(ms) && Disjoint(ns, ms)
    modifies first
    ensures Merging([first], ns[1..], ms) && rest == Head(ns[1..])
  {
    ChainTail(ns);
    rest := first.next;
    first.prev := null;
    first.next := null;
  }

  /** The merge after its first node. */
  method MergeRest<T>(newlist: Node<T>, left0: Node?<T>, right0: Node?<T>,
                      leftTail: Node?<T>, rightTail: Node?<T>, cmp: (T, T) -> int,
                      ghost ls: seq<Node<T>>, ghost rs: seq<Node<T>>)
    returns (r: Node<T>)
    requires Merging([newlist], ls, rs) && left0 == Head(ls) && right0 == Head(rs)
    requires ls != [] ==> leftTail == ls[|ls| - 1]
    requires rs != [] ==> rightTail == rs[|rs| - 1]
    modifies newlist, ls, rs
    ensures r == newlist && IsList(r, [newlist] + Merge(ls, rs, cmp))
  {
    ghost var S := (set x | x in [newlist]) + (set x | x in ls) + (set x | x in rs);
    var lp, left, right;
    ghost var done, L, R;
    lp, left, right, done, L, R := MergeLoop(newlist, left0, right0, cmp, ls, rs, S);
    r := FinishMerge(newlist, lp, left, right, leftTail, rightTail, cmp, done, L, R);
  }

  ghost predicate IsSuffix<A>(s: seq<A>, t: seq<A>) {
    |s| <= |t| && s == t[|t| - |s|..]
  }

  lemma SuffixStep<A>(s: seq<A>, t: seq<A>)
    requires IsSuffix(s, t) && s != []
    ensures IsSuffix(s[1..], t) && s[0] in t
  {}

  lemma MergeStep<T>(done: seq<Node<T>>, L: seq<Node<T>>, R: seq<Node<T>>, cmp: (T, T) -> int)
    requires L != [] && R != []
    ensures var left := cmp(L[0].data, R[0].data) <= 0;
      && (left ==> done + Merge(L, R, cmp) == (done + [L[0]]) + Merge(L[1..], R, cmp))
      && (!left ==> done + Merge(L, R, cmp) == (done + [R[0]]) + Merge(L, R[1..], cmp))
  {}

  /** The loop of the merge: takes the smaller front node until one list is used up. */
  method MergeLoop<T>(newlist: Node<T>, left0: Node?<T>, right0: Node?<T>, cmp: (T, T) -> int,
                      ghost ls: seq<Node<T>>, ghost rs: seq<Node<T>>, ghost S: set<Node<T>>)
    returns (lp: Node<T>, left: Node?<T>, right: Node?<T>,
             ghost done: seq<Node<T>>, ghost L: seq<Node<T>>, ghost R: seq<Node<T>>)
    requires Merging([newlist], ls, rs) && left0 == Head(ls) && right0 == Head(rs)
    requires newlist in S && (forall k :: 0 <= k < |ls| ==> ls[k] in S) && (forall k :: 0 <= k < |rs| ==> rs[k] in S)
    modifies S
    ensures Merging(done, L, R) && done[0] == newlist && done[|done| - 1] == lp
    ensures left == Head(L) && right == Head(R) && (left == null || right == null)
    ensures IsSuffix(L, ls) && IsSuffix(R, rs)
    ensures [newlist] + Merge(ls, rs, cmp) == done + Merge(L, R, cmp)
    ensures forall k :: 0 <= k < |done| ==> done[k] in S
  {
    left, right, lp, done, L, R := left0, right0, newlist, [newlist], ls, rs;
    while left != null && right != null
      invariant Merging(done, L, R)
      invariant done[0] == newlist && done[|done| - 1] == lp
      invariant left == Head(L) && right == Head(R)
      invariant [newlist] + Merge(ls, rs, cmp) == done + Merge(L, R, cmp)
      invariant forall k :: 0 <= k < |done| ==> done[k] in S
      invariant IsSuffix(L, ls) && IsSuffix(R, rs)
      decreases |L| + |R|
    {
      MergeStep(done, L, R, cmp);
      SuffixStep(L, ls);
      SuffixStep(R, rs);
      if cmp(left.data, right.data) <= 0 {
        var node: Node<T> := left;
        left := Take(lp, node, done, L, R);
        lp, done, L := node, done + [node], L[1..];
      } else {
        var node: Node<T> := right;
        MergingSymmetric(done, L, R);
        right := Take(lp, node, done, R, L);
        lp, done, R := node, done + [node], R[1..];
        MergingSymmetric(done, R, L);
      }
    }
  }

  /** Joins what is left of one list and sets the head's back reference to the tail. */
  method FinishMerge<T>(newlist: Node<T>, lp: Node<T>, left: Node?<T>, right: Node?<T>,
                        leftTail: Node?<T>, rightTail: Node?<T>, cmp: (T, T) -> int,
                        ghost done: seq<Node<T>>, ghost L: seq<Node<T>>, ghost R: seq<Node<T>>)
    returns (r: Node<T>)
    requires Merging(done, L, R) && done[0] == newlist && done[|done| - 1] == lp
    requires left == Head(L) && right == Head(R) && (left == null || right == null)
    requires L != [] ==> leftTail == L[|L| - 1]
    requires R != [] ==> rightTail == R[|R| - 1]
    modifies done, L, R
    ensures r == newlist && IsList(r, done + Merge(L, R, cmp))
  {
    r := newlist;
    var tail: Node?<T>;
    if left != null {
      Link(lp, left, done, L);
      tail := leftTail;
    } else if right != null {
      Link(lp, right, done, R);
      tail := rightTail;
    } else {
      tail := lp;
      assert done + Merge(L, R, cmp) == done;
    }
    SetTail(r, tail, done + Merge(L, R, cmp));
  }

  lemma SamePermutationMembers<A>(s: seq<A>, t: seq<A>)
    requires multiset(s) == multiset(t)
    ensures |s| == |t| && Within(s, t)
  {
    assert |multiset(s)| == |s| && |multiset(t)| == |t|;
    forall i | 0 <= i < |s| ensures s[i] in t {
      assert s[i] in multiset(s);
    }
  }

  lemma MergeSortMembers<T>(ns: seq<Node<T>>, cmp: (T, T) -> int)
    ensures Within(MergeSort(ns, cmp), ns)
  {
    MergeSortPermutes(ns, cmp);
    SamePermutationMembers(MergeSort(ns, cmp), ns);
  }

  /** Cuts the list after its first `half` nodes, leaving two well-formed lists. */
  method Split<T>(list: Node<T>, half: nat, ghost ns: seq<Node<T>>) returns (right: Node<T>)
    requires IsList(list, ns) && 0 < half < |ns|
    modifies ns
    ensures IsList(list, ns[..half]) && IsList(right, ns[half..])
  {
    var i, lastleft := half - 1, list;
    while i > 0
      invariant 0 <= i < half && lastleft == ns[half - 1 - i]
    {
      lastleft := lastleft.next;
      i := i - 1;
    }
    right := lastleft.next;
    lastleft.next := null;
    right.prev := list.prev;
    list.prev := lastleft;
    assert forall k :: 0 <= k < half ==> ns[..half][k] == ns[k];
    assert forall k :: 0 <= k < |ns| - half ==> ns[half..][k] == ns[half + k];
  }

  lemma HalvesDisjoint<T>(ns: seq<Node<T>>, half: nat, cmp: (T, T) -> int)
    requires Distinct(ns) && half <= |ns|
    ensures var ls, rs := ns[..half], ns[half..];
      var ls', rs' := MergeSort(ls, cmp), MergeSort(rs, cmp);
      && Disjoint(ls, rs) && Disjoint(ls', rs) && Disjoint(ls', rs')
      && Within(ls, ns) && Within(rs, ns) && Within(ls', ns) && Within(rs', ns)
  {
    var ls, rs := ns[..half], ns[half..];
    assert ns == ls + rs;
    DistinctAppend(ls, rs);
    MergeSortMembers(ls, cmp);
    MergeSortMembers(rs, cmp);
  }

  method MSort<T>(list0: Node?<T>, n: nat, cmp: (T, T) -> int, ghost ns: seq<Node<T>>) returns (list: Node?<T>)
    requires IsList(list0, ns) && n == |ns|
    modifies ns
    ensures IsList(list, MergeSort(ns, cmp))
    decreases n, 1
  {
    list := list0;
    if n > 1 {
      var left, right := SortHalves(list, n, cmp, ns);
      HalvesDisjoint(ns, n / 2, cmp);
      list := MMerge(left, right, cmp, MergeSort(ns[..n / 2], cmp), MergeSort(ns[n / 2..], cmp));
    }
  }

  /** Splits the list in the middle and sorts both halves. */
  method SortHalves<T>(list: Node<T>, n: nat, cmp: (T, T) -> int, ghost ns: seq<Node<T>>)
    returns (left: Node?<T>, right: Node?<T>)
    requires IsList(list, ns) && n == |ns| && n > 1
    modifies ns
    ensures IsList(left, MergeSort(ns[..n / 2], cmp)) && IsList(right, MergeSort(ns[n / 2..], cmp))
    decreases n, 0
  {
    var half := n / 2;
    HalvesDisjoint(ns, half, cmp);
    MergeSortMembers(ns[..half], cmp);
    right := Split(list, half, ns);
    left, right := SortBoth(list, right, half, n - half, cmp, ns[..half], ns[half..]);
  }

  method SortBoth<T>(left0: Node?<T>, right0: Node?<T>, m: nat, n: nat, cmp: (T, T) -> int, ghost ls: seq<Node<T>>,
                     ghost rs: seq<Node<T>>)
    returns (left: Node?<T>, right: Node?<T>)
    requires IsList(left0, ls) && IsList(right0, rs) && m == |ls| && n == |rs| && Disjoint(ls, rs)
    requires Disjoint(MergeSort(ls, cmp), rs) && Within(MergeSort(ls, cmp), ls)
    modifies ls, rs
    ensures IsList(left, MergeSort(ls, cmp)) && IsList(right, MergeSort(rs, cmp))
    decreases if m < n then n else m, 2
  {
    left := MSort(left0, m, cmp, ls);
    right := MSort(right0, n, cmp, rs);
  }

  // ---------- insertion and removal ----------

  method Append<T>(list: Node?<T>, data: T, ghost ns: seq<Node<T>>) returns (r: Node<T>, ptr: Node<T>)
    requires IsList(list, ns)
    modifies ns
    ensures fresh(ptr) && ptr.data == data && IsList(r, ns + [ptr])
  {
    ptr := new Node(data);
    if list == null {
      r := ptr;
      assert ns + [ptr] == [ptr];
    } else {
      r := list;
      Link(list.prev, ptr, ns, [ptr]);
      SetTail(list, ptr, ns + [ptr]);
    }
  }

  ghost function Without<A>(s: seq<A>, k: nat): (r: seq<A>)
    requires k < |s|
    ensures |r| == |s| - 1
    ensures forall i :: 0 <= i < k ==> r[i] == s[i]
    ensures forall i :: k <= i < |s| - 1 ==> r[i] == s[i + 1]
  {
    s[..k] + s[k + 1..]
  }

  lemma WithoutDistinct<A>(s: seq<A>, k: nat)
    requires k < |s| && Distinct(s)
    ensures Distinct(Without(s, k)) && s[k] !in Without(s, k)
  {}

  /** alpm_list_remove_item: unlinks one node; the three cases are head, tail and middle. */
  method RemoveItem<T>(haystack: Node<T>, item: Node<T>, ghost ns: seq<Node<T>>, ghost k: nat) returns (r: Node?<T>)
    requires IsList(haystack, ns) && k < |ns| && item == ns[k]
    modifies ns
    ensures IsList(r, Without(ns, k))
    ensures item.next == old(item.next)
  {
    WithoutDistinct(ns, k);
    r := haystack;
    if item == haystack {
      r := item.next;
      if r != null {
        r.prev := item.prev;
      }
      item.prev := null;
    } else if item == haystack.prev {
      if item.prev != null {
        item.prev.next := item.next;
        haystack.prev := item.prev;
        item.prev := null;
      }
    } else {
      if item.next != null {
        item.next.prev := item.prev;
      }
      if item.prev != null {
        item.prev.next := item.next;
      }
    }
  }
}
