/** alpm_list_copy, alpm_list_diff_sorted and alpm_list_diff of lib/libalpm/alpm_list.c:
    the difference of two lists under a comparison, computed by sorting copies and merging them. */
module ListDiff {
  import opened Orders
  import opened AlpmList

  ghost predicate SortedData<T>(xs: seq<T>, cmp: (T, T) -> int) {
    forall i, j :: 0 <= i < j < |xs| ==> cmp(xs[i], xs[j]) <= 0
  }

  /** The elements of xs that compare equal to key, in order. */
  ghost function Equals<T>(key: T, xs: seq<T>, cmp: (T, T) -> int): (r: seq<T>) {
    if xs == [] then [] else (if cmp(xs[0], key) == 0 then [xs[0]] else []) + Equals(key, xs[1..], cmp)
  }

  ghost function Drop<T>(xs: seq<T>, n: nat): (r: seq<T>) {
    if n <= |xs| then xs[n..] else []
  }

  /** What alpm_list_diff_sorted collects as "only left". */
  ghost function DiffSorted<T>(l: seq<T>, r: seq<T>, cmp: (T, T) -> int): (d: seq<T>)
    ensures |d| <= |l|
    decreases |l| + |r|
  {
    if l == [] then []
    else if r == [] then l
    else if cmp(l[0], r[0]) < 0 then [l[0]] + DiffSorted(l[1..], r, cmp)
    else if cmp(l[0], r[0]) > 0 then DiffSorted(l, r[1..], cmp)
    else DiffSorted(l[1..], r[1..], cmp)
  }

  lemma {:induction false} NoEquals<T>(key: T, xs: seq<T>, cmp: (T, T) -> int)
    requires forall i :: 0 <= i < |xs| ==> cmp(xs[i], key) != 0
    ensures Equals(key, xs, cmp) == []
  {
    if xs != [] { NoEquals(key, xs[1..], cmp); }
  }

  lemma EqualToKey<T(!new)>(x: T, y: T, key: T, cmp: (T, T) -> int)
    requires IsOrder(cmp) && cmp(x, key) == 0
    ensures cmp(x, y) < 0 ==> cmp(y, key) > 0
    ensures cmp(x, y) == 0 ==> cmp(y, key) == 0
    ensures cmp(x, y) > 0 ==> cmp(y, key) < 0
  {
    assert cmp(key, x) <= 0 && cmp(x, key) <= 0;
    assert cmp(y, key) <= 0 ==> cmp(y, x) <= 0;
    assert cmp(key, y) <= 0 ==> cmp(x, y) <= 0;
  }

  lemma AllGreater<T(!new)>(x: T, ys: seq<T>, key: T, cmp: (T, T) -> int)
    requires IsOrder(cmp) && SortedData(ys, cmp) && ys != [] && cmp(x, ys[0]) < 0 && cmp(x, key) == 0
    ensures Equals(key, ys, cmp) == []
  {
    forall i | 0 <= i < |ys|
      ensures cmp(ys[i], key) != 0
    {
      assert cmp(ys[0], ys[0]) <= 0;
      assert cmp(ys[0], ys[i]) <= 0;
      assert cmp(ys[i], x) > 0;
      EqualToKey(x, ys[i], key, cmp);
    }
    NoEquals(key, ys, cmp);
  }

  /** Exact content of the sorted difference: of each class of equal elements, the left list's
      occurrences less as many (the first ones) as the right list has. */
  lemma {:induction false} DiffSortedClass<T(!new)>(key: T, l: seq<T>, r: seq<T>, cmp: (T, T) -> int)
    requires IsOrder(cmp) && SortedData(l, cmp) && SortedData(r, cmp)
    ensures Equals(key, DiffSorted(l, r, cmp), cmp) == Drop(Equals(key, l, cmp), |Equals(key, r, cmp)|)
    decreases |l| + |r|
  {
    if l != [] && r != [] {
      if cmp(l[0], r[0]) < 0 {
        DiffSortedClass(key, l[1..], r, cmp);
        LeftOnly(key, l, r, DiffSorted(l[1..], r, cmp), cmp);
      } else if cmp(l[0], r[0]) > 0 {
        DiffSortedClass(key, l, r[1..], cmp);
        RightOnly(key, l, r, DiffSorted(l, r[1..], cmp), cmp);
      } else {
        DiffSortedClass(key, l[1..], r[1..], cmp);
        MatchedOff(key, l, r, DiffSorted(l[1..], r[1..], cmp), cmp);
      }
    }
  }

  lemma RightOnly<T(!new)>(key: T, l: seq<T>, r: seq<T>, d: seq<T>, cmp: (T, T) -> int)
    requires IsOrder(cmp) && SortedData(l, cmp) && l != [] && r != [] && cmp(l[0], r[0]) > 0
    requires Equals(key, d, cmp) == Drop(Equals(key, l, cmp), |Equals(key, r[1..], cmp)|)
    ensures Equals(key, d, cmp) == Drop(Equals(key, l, cmp), |Equals(key, r, cmp)|)
  {
    if cmp(r[0], key) == 0 { AllGreater(r[0], l, key, cmp); }
  }

  lemma MatchedOff<T(!new)>(key: T, l: seq<T>, r: seq<T>, d: seq<T>, cmp: (T, T) -> int)
    requires IsOrder(cmp) && l != [] && r != [] && cmp(l[0], r[0]) == 0
    requires Equals(key, d, cmp) == Drop(Equals(key, l[1..], cmp), |Equals(key, r[1..], cmp)|)
    ensures Equals(key, d, cmp) == Drop(Equals(key, l, cmp), |Equals(key, r, cmp)|)
  {
    if cmp(l[0], key) == 0 { EqualToKey(l[0], r[0], key, cmp); }
    if cmp(r[0], key) == 0 { EqualToKey(r[0], l[0], key, cmp); }
    DropOne(l[0], Equals(key, l[1..], cmp), |Equals(key, r[1..], cmp)|);
  }

  lemma DropOne<T>(x: T, s: seq<T>, n: nat)
    ensures Drop([x] + s, n + 1) == Drop(s, n) && [] + s == s
  {}

  lemma EqualsCons<T>(key: T, x: T, xs: seq<T>, cmp: (T, T) -> int)
    ensures Equals(key, [x] + xs, cmp) == (if cmp(x, key) == 0 then [x] else []) + Equals(key, xs, cmp)
  {
    assert ([x] + xs)[1..] == xs;
  }

  lemma LeftOnly<T(!new)>(key: T, l: seq<T>, r: seq<T>, d: seq<T>, cmp: (T, T) -> int)
    requires IsOrder(cmp) && SortedData(r, cmp) && l != [] && r != [] && cmp(l[0], r[0]) < 0
    requires Equals(key, d, cmp) == Drop(Equals(key, l[1..], cmp), |Equals(key, r, cmp)|)
    ensures Equals(key, [l[0]] + d, cmp) == Drop(Equals(key, l, cmp), |Equals(key, r, cmp)|)
  {
    EqualsCons(key, l[0], d, cmp);
    if cmp(l[0], key) == 0 { AllGreater(l[0], r, key, cmp); }
  }

  ghost predicate IsSubsequence<T>(s: seq<T>, t: seq<T>) {
    if s == [] then true
    else if t == [] then false
    else (s[0] == t[0] && IsSubsequence(s[1..], t[1..])) || IsSubsequence(s, t[1..])
  }

  lemma {:induction false} DiffSubsequence<T>(l: seq<T>, r: seq<T>, cmp: (T, T) -> int)
    ensures IsSubsequence(DiffSorted(l, r, cmp), l)
    decreases |l| + |r|
  {
    if l != [] {
      if r == [] {
        SelfSubsequence(l);
      } else if cmp(l[0], r[0]) < 0 {
        DiffSubsequence(l[1..], r, cmp);
      } else if cmp(l[0], r[0]) > 0 {
        DiffSubsequence(l, r[1..], cmp);
      } else {
        DiffSubsequence(l[1..], r[1..], cmp);
      }
    }
  }

  lemma {:induction false} SelfSubsequence<T>(l: seq<T>)
    ensures IsSubsequence(l, l)
  {
    if l != [] { SelfSubsequence(l[1..]); }
  }

  lemma {:induction false} SubsequenceIndex<T>(s: seq<T>, t: seq<T>, i: nat, j: nat) returns (i': nat, j': nat)
    requires IsSubsequence(s, t) && i < j < |s|
    ensures i' < j' < |t| && t[i'] == s[i] && t[j'] == s[j]
    decreases |t|
  {
    if IsSubsequence(s, t[1..]) {
      i', j' := SubsequenceIndex(s, t[1..], i, j);
      i', j' := i' + 1, j' + 1;
    } else if i > 0 {
      i', j' := SubsequenceIndex(s[1..], t[1..], i - 1, j - 1);
      i', j' := i' + 1, j' + 1;
    } else {
      j' := SubsequenceMember(s[1..], t[1..], j - 1);
      i', j' := 0, j' + 1;
    }
  }

  lemma {:induction false} SubsequenceMember<T>(s: seq<T>, t: seq<T>, j: nat) returns (j': nat)
    requires IsSubsequence(s, t) && j < |s|
    ensures j' < |t| && t[j'] == s[j]
    decreases |t|
  {
    if s[0] == t[0] && IsSubsequence(s[1..], t[1..]) {
      if j == 0 { j' := 0; } else { j' := SubsequenceMember(s[1..], t[1..], j - 1); j' := j' + 1; }
    } else {
      j' := SubsequenceMember(s, t[1..], j);
      j' := j' + 1;
    }
  }

  lemma DiffSortedSorted<T(!new)>(l: seq<T>, r: seq<T>, cmp: (T, T) -> int)
    requires SortedData(l, cmp)
    ensures SortedData(DiffSorted(l, r, cmp), cmp)
  {
    var d := DiffSorted(l, r, cmp);
    DiffSubsequence(l, r, cmp);
    forall i, j | 0 <= i < j < |d| ensures cmp(d[i], d[j]) <= 0 {
      var i', j' := SubsequenceIndex(d, l, i, j);
    }
  }

  lemma {:induction false} ClassData<T>(key: T, ns: seq<Node<T>>, cmp: (T, T) -> int)
    ensures Data(Class(key, ns, cmp)) == Equals(key, Data(ns), cmp)
  {
    if ns != [] {
      assert Data(ns)[1..] == Data(ns[1..]);
      ClassData(key, ns[1..], cmp);
    }
  }

  // ---------- operations ----------

  method Count<T>(list: Node?<T>, ghost ns: seq<Node<T>>) returns (n: nat)
    requires IsList(list, ns)
    ensures n == |ns|
  {
    n := 0;
    var lp := list;
    while lp != null
      invariant n <= |ns| && lp == (if n < |ns| then ns[n] else null)
      decreases |ns| - n
    {
      n := n + 1;
      lp := lp.next;
    }
  }

  method Copy<T>(list: Node?<T>, ghost ns: seq<Node<T>>) returns (r: Node?<T>, ghost rs: seq<Node<T>>)
    requires IsList(list, ns)
    ensures IsList(r, rs) && Data(rs) == Data(ns)
    ensures forall k :: 0 <= k < |rs| ==> fresh(rs[k])
  {
    r, rs := null, [];
    var lp := list;
    ghost var n := 0;
    while lp != null
      invariant n <= |ns| && lp == (if n < |ns| then ns[n] else null)
      invariant IsList(r, rs) && IsList(list, ns)
      invariant |rs| == n && forall k :: 0 <= k < n ==> fresh(rs[k]) && rs[k].data == ns[k].data
      decreases |ns| - n
    {
      var ptr;
      r, ptr := Append(r, lp.data, rs);
      rs := rs + [ptr];
      lp := lp.next;
      n := n + 1;
    }
  }

  lemma DiffStep<T>(out: seq<T>, l: seq<T>, r: seq<T>, i: nat, j: nat, cmp: (T, T) -> int)
    requires i < |l| && j < |r|
    ensures cmp(l[i], r[j]) < 0 ==>
      out + DiffSorted(l[i..], r[j..], cmp) == (out + [l[i]]) + DiffSorted(l[i + 1..], r[j..], cmp)
    ensures cmp(l[i], r[j]) > 0 ==> DiffSorted(l[i..], r[j..], cmp) == DiffSorted(l[i..], r[j + 1..], cmp)
    ensures cmp(l[i], r[j]) == 0 ==> DiffSorted(l[i..], r[j..], cmp) == DiffSorted(l[i + 1..], r[j + 1..], cmp)
  {
    assert l[i..][1..] == l[i + 1..] && r[j..][1..] == r[j + 1..];
  }

  /** alpm_list_diff_sorted with only the left output asked for, as alpm_list_diff calls it. */
  method CollectOnlyLeft<T>(left: Node?<T>, right: Node?<T>, cmp: (T, T) -> int,
                            ghost ls: seq<Node<T>>, ghost rs: seq<Node<T>>)
    returns (only: seq<T>)
    requires IsList(left, ls) && IsList(right, rs)
    ensures only == DiffSorted(Data(ls), Data(rs), cmp)
  {
    ghost var i;
    var l;
    l, only, i := CollectLoop(left, right, cmp, ls, rs);
    var rest := CollectRest(l, ls, i);
    only := only + rest;
  }

  /** The merging loop, until one of the lists is used up. */
  method CollectLoop<T>(left: Node?<T>, right: Node?<T>, cmp: (T, T) -> int,
                        ghost ls: seq<Node<T>>, ghost rs: seq<Node<T>>)
    returns (l: Node?<T>, only: seq<T>, ghost i: nat)
    requires Chain(ls) && Chain(rs) && left == Head(ls) && right == Head(rs)
    ensures i <= |ls| && l == (if i < |ls| then ls[i] else null)
    ensures DiffSorted(Data(ls), Data(rs), cmp) == only + Data(ls)[i..]
  {
    l, only, i := left, [], 0;
    var r := right;
    ghost var j, ld, rd := 0, Data(ls), Data(rs);
    ghost var whole := DiffSorted(ld, rd, cmp);
    assert ld[0..] == ld && rd[0..] == rd;
    while l != null && r != null
      invariant i <= |ls| && l == (if i < |ls| then ls[i] else null)
      invariant j <= |rs| && r == (if j < |rs| then rs[j] else null)
      invariant whole == only + DiffSorted(ld[i..], rd[j..], cmp)
      decreases |ls| - i + |rs| - j
    {
      DiffStep(only, ld, rd, i, j, cmp);
      var c := cmp(l.data, r.data);
      if c < 0 {
        only := only + [l.data];
        l := l.next;
        i := i + 1;
      } else if c > 0 {
        r := r.next;
        j := j + 1;
      } else {
        l := l.next;
        r := r.next;
        i, j := i + 1, j + 1;
      }
    }
  }

  /** The elements from position i on. */
  method CollectRest<T>(l0: Node?<T>, ghost ls: seq<Node<T>>, ghost i: nat) returns (rest: seq<T>)
    requires Chain(ls) && i <= |ls| && l0 == (if i < |ls| then ls[i] else null)
    ensures rest == Data(ls)[i..]
  {
    rest := [];
    var l := l0;
    ghost var k, ld := i, Data(ls);
    while l != null
      invariant i <= k <= |ls| && l == (if k < |ls| then ls[k] else null)
      invariant rest == ld[i..k]
      decreases |ls| - k
    {
      rest := rest + [l.data];
      l := l.next;
      k := k + 1;
    }
  }

  /** alpm_list_diff: neither argument is touched, and the result holds, class by class, the
      elements of lhs that are left after matching off the elements of rhs. */
  method Diff<T(!new)>(lhs: Node?<T>, rhs: Node?<T>, cmp: (T, T) -> int, ghost ls: seq<Node<T>>, ghost rs: seq<Node<T>>)
    returns (d: seq<T>)
    requires IsList(lhs, ls) && IsList(rhs, rs) && IsOrder(cmp)
    ensures SortedData(d, cmp)
    ensures forall key :: Equals(key, d, cmp) == Drop(Equals(key, Data(ls), cmp), |Equals(key, Data(rs), cmp)|)
  {
    ghost var lc, rc;
    var left, right;
    left, lc := SortedCopy(lhs, cmp, ls);
    right, rc := SortedCopy(rhs, cmp, rs);
    d := CollectOnlyLeft(left, right, cmp, lc, rc);
    DiffTheorem(Data(lc), Data(rc), Data(ls), Data(rs), cmp);
  }

  method SortedCopy<T(!new)>(list: Node?<T>, cmp: (T, T) -> int, ghost ns: seq<Node<T>>)
    returns (r: Node?<T>, ghost rs: seq<Node<T>>)
    requires IsList(list, ns) && IsOrder(cmp)
    ensures IsList(r, rs) && SortedData(Data(rs), cmp)
    ensures forall key :: Equals(key, Data(rs), cmp) == Equals(key, Data(ns), cmp)
    ensures forall k :: 0 <= k < |rs| ==> fresh(rs[k])
  {
    r, rs := Copy(list, ns);
    var n := Count(r, rs);
    SortCopyFacts(rs, cmp);
    r := MSort(r, n, cmp, rs);
    rs := MergeSort(rs, cmp);
  }

  lemma SortCopyFacts<T(!new)>(ns: seq<Node<T>>, cmp: (T, T) -> int)
    requires IsOrder(cmp)
    ensures Within(MergeSort(ns, cmp), ns)
    ensures SortedData(Data(MergeSort(ns, cmp)), cmp)
    ensures forall key :: Equals(key, Data(MergeSort(ns, cmp)), cmp) == Equals(key, Data(ns), cmp)
  {
    MergeSortTheorem(ns, cmp);
    MergeSortMembers(ns, cmp);
    forall key ensures Equals(key, Data(MergeSort(ns, cmp)), cmp) == Equals(key, Data(ns), cmp) {
      ClassData(key, ns, cmp);
      ClassData(key, MergeSort(ns, cmp), cmp);
    }
  }

  lemma DiffTheorem<T(!new)>(l: seq<T>, r: seq<T>, lhs: seq<T>, rhs: seq<T>, cmp: (T, T) -> int)
    requires IsOrder(cmp) && SortedData(l, cmp) && SortedData(r, cmp)
    requires forall key :: Equals(key, l, cmp) == Equals(key, lhs, cmp)
    requires forall key :: Equals(key, r, cmp) == Equals(key, rhs, cmp)
    ensures SortedData(DiffSorted(l, r, cmp), cmp)
    ensures forall key :: Equals(key, DiffSorted(l, r, cmp), cmp)
              == Drop(Equals(key, lhs, cmp), |Equals(key, rhs, cmp)|)
  {
    DiffSortedSorted(l, r, cmp);
    forall key ensures Equals(key, DiffSorted(l, r, cmp), cmp) == Drop(Equals(key, lhs, cmp), |Equals(key, rhs, cmp)|) {
      DiffSortedClass(key, l, r, cmp);
    }
  }
}
