/** The merge of two sorted lists of paths behind the hook file matcher (lib/libalpm/hook.c:
    _alpm_hook_trigger_match_file), and what it computes. */
module HookMerge {
  import opened Packages

  ghost predicate InOrder(s: seq<string>) {
    forall i, j :: 0 <= i < j < |s| ==> Strcmp(s[i], s[j]) <= 0
  }

  /** How many paths at the start are this one. */
  function RunLength(s: seq<string>, path: string): (c: nat)
    ensures c <= |s|
  {
    if s == [] || s[0] != path then 0 else 1 + RunLength(s[1..], path)
  }

  function AfterRun(s: seq<string>, path: string): (r: seq<string>)
    ensures |r| <= |s| && (s != [] && s[0] == path ==> |r| < |s|)
  {
    s[RunLength(s, path)..]
  }

  // ---------- what the merge of x and y leaves and finds ----------

  function Left(x: seq<string>, y: seq<string>): (r: seq<string>)
    decreases |x| + |y|
  {
    if x == [] || y == [] then x
    else if Strcmp(x[0], y[0]) > 0 then Left(x, y[1..])
    else if x[0] == y[0] then Left(AfterRun(x, x[0]), AfterRun(y, x[0]))
    else [x[0]] + Left(x[1..], y)
  }

  function Right(x: seq<string>, y: seq<string>): (r: seq<string>)
    decreases |x| + |y|
  {
    if x == [] || y == [] then y
    else if Strcmp(x[0], y[0]) > 0 then [y[0]] + Right(x, y[1..])
    else if x[0] == y[0] then Right(AfterRun(x, x[0]), AfterRun(y, x[0]))
    else Right(x[1..], y)
  }

  function Both(x: seq<string>, y: seq<string>): (r: seq<string>)
    decreases |x| + |y|
  {
    if x == [] || y == [] then []
    else if Strcmp(x[0], y[0]) > 0 then Both(x, y[1..])
    else if x[0] == y[0] then [x[0]] + Both(AfterRun(x, x[0]), AfterRun(y, x[0]))
    else Both(x[1..], y)
  }

  // ---------- what that means ----------

  ghost predicate AllBelow(path: string, s: seq<string>) {
    forall k :: 0 <= k < |s| ==> Strcmp(path, s[k]) < 0
  }

  lemma BelowRest(path: string, s: seq<string>)
    requires InOrder(s) && (s != [] ==> Strcmp(path, s[0]) < 0)
    ensures AllBelow(path, s) && path !in s
  {
    forall k | 0 <= k < |s| ensures Strcmp(path, s[k]) < 0 {
      if k > 0 { StrcmpTransitive(path, s[0], s[k]); }
      StrcmpFacts(path, s[k]);
      StrcmpFacts(path, s[0]);
    }
    StrcmpFacts(path, path);
  }

  /** What a run is, and what follows it in a sorted list. */
  lemma {:induction false} Run(s: seq<string>, path: string)
    requires InOrder(s) && (s != [] ==> Strcmp(path, s[0]) <= 0)
    ensures InOrder(AfterRun(s, path)) && path !in AfterRun(s, path)
    ensures forall q :: q != path ==> multiset(AfterRun(s, path))[q] == multiset(s)[q]
    ensures path in s <==> s != [] && s[0] == path
  {
    StrcmpFacts(path, path);
    if s != [] {
      StrcmpFacts(path, s[0]);
      assert s == [s[0]] + s[1..];
      if s[0] == path {
        Run(s[1..], path);
        assert AfterRun(s, path) == AfterRun(s[1..], path);
      } else {
        BelowRest(path, s);
        assert AfterRun(s, path) == s;
      }
    }
  }

  /** Each list keeps exactly the paths that are not in the other, as often as it had them. */
  ghost predicate Keeps(r: seq<string>, x: seq<string>, y: seq<string>) {
    forall q :: multiset(r)[q] == if q in y then 0 else multiset(x)[q]
  }

  /** The shared paths, each once. */
  ghost predicate Shares(r: seq<string>, x: seq<string>, y: seq<string>) {
    && (forall q :: q in r <==> q in x && q in y)
    && (forall i, j :: 0 <= i < j < |r| ==> r[i] != r[j])
  }

  lemma SkipRight(x: seq<string>, y: seq<string>, r: seq<string>, s: seq<string>, b: seq<string>)
    requires InOrder(x) && x != [] && y != [] && Strcmp(x[0], y[0]) > 0
    requires Keeps(r, x, y[1..]) && Keeps(s, y[1..], x) && Shares(b, x, y[1..])
    ensures Keeps(r, x, y) && Keeps([y[0]] + s, y, x) && Shares(b, x, y)
  {
    StrcmpFacts(x[0], y[0]);
    BelowRest(y[0], x);
    assert y == [y[0]] + y[1..];
  }

  lemma SkipLeft(x: seq<string>, y: seq<string>, r: seq<string>, s: seq<string>, b: seq<string>)
    requires InOrder(y) && x != [] && y != [] && Strcmp(x[0], y[0]) < 0
    requires Keeps(r, x[1..], y) && Keeps(s, y, x[1..]) && Shares(b, x[1..], y)
    ensures Keeps([x[0]] + r, x, y) && Keeps(s, y, x) && Shares(b, x, y)
  {
    BelowRest(x[0], y);
    assert x == [x[0]] + x[1..];
  }

  lemma SameMembers(s: seq<string>, path: string)
    requires forall q :: q != path ==> multiset(AfterRun(s, path))[q] == multiset(s)[q]
    ensures forall q :: q != path ==> (q in AfterRun(s, path) <==> q in s)
  {
    forall q | q != path ensures q in AfterRun(s, path) <==> q in s {
      assert q in AfterRun(s, path) <==> q in multiset(AfterRun(s, path));
      assert q in s <==> q in multiset(s);
    }
  }

  lemma TakeShared(x: seq<string>, y: seq<string>, r: seq<string>, s: seq<string>, b: seq<string>)
    requires InOrder(x) && InOrder(y) && x != [] && y != [] && x[0] == y[0]
    requires var x', y' := AfterRun(x, x[0]), AfterRun(y, x[0]);
      Keeps(r, x', y') && Keeps(s, y', x') && Shares(b, x', y')
    ensures Keeps(r, x, y) && Keeps(s, y, x) && Shares([x[0]] + b, x, y)
  {
    StrcmpFacts(x[0], x[0]);
    Run(x, x[0]);
    Run(y, x[0]);
    SameMembers(x, x[0]);
    SameMembers(y, x[0]);
    assert multiset(AfterRun(x, x[0]))[x[0]] == 0 && multiset(AfterRun(y, x[0]))[x[0]] == 0;
  }

  /** The merge of sorted lists partitions them: each keeps its own paths, with their repetitions, and each
      shared path is found once. */
  lemma {:induction false} MergePartitions(x: seq<string>, y: seq<string>)
    requires InOrder(x) && InOrder(y)
    ensures Keeps(Left(x, y), x, y) && Keeps(Right(x, y), y, x) && Shares(Both(x, y), x, y)
    decreases |x| + |y|
  {
    if x != [] && y != [] {
      StrcmpFacts(x[0], y[0]);
      if Strcmp(x[0], y[0]) > 0 {
        MergePartitions(x, y[1..]);
        SkipRight(x, y, Left(x, y[1..]), Right(x, y[1..]), Both(x, y[1..]));
      } else if x[0] == y[0] {
        var x', y' := AfterRun(x, x[0]), AfterRun(y, x[0]);
        Run(x, x[0]);
        Run(y, x[0]);
        MergePartitions(x', y');
        TakeShared(x, y, Left(x', y'), Right(x', y'), Both(x', y'));
      } else {
        MergePartitions(x[1..], y);
        SkipLeft(x, y, Left(x[1..], y), Right(x[1..], y), Both(x[1..], y));
      }
    }
  }

  // ---------- removing repetitions ----------

  /** Each run of a path is cut down to one. */
  function Squeezed(s: seq<string>): (r: seq<string>)
    decreases |s|
  {
    if s == [] then [] else [s[0]] + Squeezed(AfterRun(s[1..], s[0]))
  }

  lemma AfterRunMember(s: seq<string>, path: string, q: string)
    requires InOrder(s) && (s != [] ==> Strcmp(path, s[0]) <= 0)
    ensures InOrder(AfterRun(s, path)) && (q in AfterRun(s, path) <==> q in s && q != path)
  {
    Run(s, path);
    SameMembers(s, path);
  }

  lemma SqueezedStep(first: string, rest: seq<string>, q: string, n: nat)
    requires multiset(rest)[q] == n
    ensures multiset([first] + rest)[q] == if q == first then n + 1 else n
  {}

  /** In a sorted list that leaves every path exactly once. */
  lemma {:induction false} SqueezedOnce(s: seq<string>, q: string)
    requires InOrder(s)
    ensures multiset(Squeezed(s))[q] == if q in s then 1 else 0
    decreases |s|
  {
    if s != [] {
      var rest := AfterRun(s[1..], s[0]);
      AfterRunMember(s[1..], s[0], q);
      SqueezedOnce(rest, q);
      SqueezedStep(s[0], Squeezed(rest), q, multiset(Squeezed(rest))[q]);
      assert s == [s[0]] + s[1..];
    }
  }
}
