/** Checking that a transaction fits on disk (lib/libalpm/diskspace.c). */
module Diskspace {
  import opened Packages
  import opened Orders
  import opened AlpmList
  import opened ListSeq

  type pos = x: nat | x > 0 witness 1

  /** What statvfs reports: the block size, all blocks, and those available. */
  datatype Stats = Stats(bsize: pos, blocks: nat, bavail: nat)

  /** A mount point; statistics may not be had. */
  datatype Mount = Mount(dir: string, readOnly: bool, stats: Option<Stats>)

  // ---------- finding the mount point of a path ----------

  predicate IsPrefix(s: string, t: string) {
    |s| <= |t| && t[..|s|] == s
  }

  /** The path is below the directory, or is the directory. */
  predicate Contains(dir: string, path: string) {
    IsPrefix(dir, path) && dir != "" && (dir[|dir| - 1] == '/' || |path| == |dir| || path[|dir|] == '/')
  }

  /** The directory and what is below it, whether or not it is written with a final slash; no sibling whose name
      is longer. */
  lemma ContainsExactly(dir: string, path: string)
    ensures dir == "" ==> !Contains(dir, path)
    ensures dir != "" && dir[|dir| - 1] == '/' ==> (Contains(dir, path) <==> exists rest :: path == dir + rest)
    ensures dir != "" && dir[|dir| - 1] != '/' ==>
      (Contains(dir, path) <==> path == dir || exists rest :: path == dir + ("/" + rest))
  {
    if Contains(dir, path) {
      assert path == dir + path[|dir|..];
      if |path| > |dir| && path[|dir|] == '/' { assert path[|dir|..] == "/" + path[|dir| + 1..]; }
    }
    forall rest | path == dir + rest ensures IsPrefix(dir, path) { assert path[..|dir|] == dir; }
    forall rest | path == dir + ("/" + rest) ensures IsPrefix(dir, path) && |path| > |dir| && path[|dir|] == '/' {
      assert path[..|dir|] == dir;
    }
  }

  function MountCmp(a: Mount, b: Mount): (r: int) {
    -Strcmp(a.dir, b.dir)
  }

  lemma MountCmpOrders()
    ensures IsOrder(MountCmp)
  {
    forall x, y ensures MountCmp(x, y) <= 0 <==> MountCmp(y, x) >= 0 { StrcmpFacts(x.dir, y.dir); }
    forall x, y, z | MountCmp(x, y) <= 0 && MountCmp(y, z) <= 0 ensures MountCmp(x, z) <= 0 {
      StrcmpFacts(x.dir, y.dir);
      StrcmpFacts(y.dir, z.dir);
      StrcmpFacts(x.dir, z.dir);
      StrcmpTransitive(z.dir, y.dir, x.dir);
    }
  }

  lemma {:induction false} PrefixFirst(s: string, t: string)
    requires IsPrefix(s, t) && |s| < |t|
    ensures Strcmp(s, t) < 0
  {
    if s != "" {
      assert t[0] == t[..|s|][0] && t[1..][..|s| - 1] == t[..|s|][1..];
      PrefixFirst(s[1..], t[1..]);
    }
  }

  lemma PrefixesNest(s: string, t: string, path: string)
    requires IsPrefix(s, path) && IsPrefix(t, path) && |s| <= |t|
    ensures IsPrefix(s, t)
  {
    assert path[..|t|][..|s|] == path[..|s|];
  }

  ghost predicate DeepestFirst(mounts: seq<Mount>) {
    forall i, j :: 0 <= i < j < |mounts| ==> MountCmp(mounts[i], mounts[j]) <= 0
  }

  /** match_mount_point: the first mount point that contains the path. */
  function Match(mounts: seq<Mount>, path: string): (k: nat)
    ensures k <= |mounts| && (k < |mounts| ==> Contains(mounts[k].dir, path))
    ensures forall i :: 0 <= i < k ==> !Contains(mounts[i].dir, path)
  {
    if mounts == [] || Contains(mounts[0].dir, path) then 0
    else
      var k := Match(mounts[1..], path);
      assert forall i :: 1 <= i < k + 1 ==> mounts[i] == mounts[1..][i - 1];
      1 + k
  }

  /** In the order in which the list is sorted, that is the deepest one. */
  lemma MatchIsDeepest(mounts: seq<Mount>, path: string, j: nat)
    requires DeepestFirst(mounts) && j < |mounts| && Contains(mounts[j].dir, path)
    ensures Match(mounts, path) < |mounts| && |mounts[j].dir| <= |mounts[Match(mounts, path)].dir|
  {
    var k := Match(mounts, path);
    var s, t := mounts[k].dir, mounts[j].dir;
    if |t| > |s| {
      PrefixesNest(s, t, path);
      PrefixFirst(s, t);
      assert false;
    }
  }

  method MatchMountPoint(mounts: seq<Mount>, path: string) returns (k: nat)
    ensures k == Match(mounts, path)
  {
    k := 0;
    while k < |mounts| && !Contains(mounts[k].dir, path)
      invariant k <= |mounts| && forall i :: 0 <= i < k ==> !Contains(mounts[i].dir, path)
    {
      k := k + 1;
    }
  }

  lemma SameData(s: seq<Node<Mount>>, t: seq<Node<Mount>>, m: Mount)
    requires Within(s, t) && m in Data(s)
    ensures m in Data(t)
  {
    var i :| 0 <= i < |s| && Data(s)[i] == m;
    var j :| 0 <= j < |t| && t[j] == s[i];
    assert Data(t)[j] == m;
  }

  lemma SortedMounts(ns: seq<Node<Mount>>)
    ensures var sorted := Data(MergeSort(ns, MountCmp));
      DeepestFirst(sorted) && |sorted| == |ns| && forall m :: m in sorted <==> m in Data(ns)
  {
    MountCmpOrders();
    MergeSortTheorem(ns, MountCmp);
    var ms := MergeSort(ns, MountCmp);
    SamePermutationMembers(ms, ns);
    SamePermutationMembers(ns, ms);
    forall m ensures m in Data(ms) <==> m in Data(ns) {
      if m in Data(ms) { SameData(ms, ns, m); }
      if m in Data(ns) { SameData(ns, ms, m); }
    }
  }

  /** mount_point_list: the mount points in the order of the comparison. */
  method SortMounts(mounts0: seq<Mount>) returns (mounts: seq<Mount>)
    ensures DeepestFirst(mounts) && |mounts| == |mounts0|
    ensures forall m :: m in mounts <==> m in mounts0
  {
    var list, ns := FromSeq(mounts0);
    SortedMounts(ns);
    list := MSort(list, |mounts0|, MountCmp, ns);
    mounts := ToSeq(list, MergeSort(ns, MountCmp));
  }

  // ---------- what a package frees and takes ----------

  datatype File = File(name: string, size: nat, plain: bool)

  /** Where things are: mount points, the root, the database and what is on disk. */
  datatype Place = Place(mounts: seq<Mount>, root: string, dbpath: string, disk: map<string, File>)

  /** As many blocks as it takes, the last of them perhaps in part. */
  function Blocks(size: nat, bsize: pos): (n: nat)
    ensures bsize * (n - 1) < size <= bsize * n
  {
    (size + bsize - 1) / bsize
  }

  /** The blocks charged to a mount point: mount and number. */
  datatype Charge = Nothing | Charge(mount: nat, blocks: nat)

  function ChargeAt(w: Place, path: string, size: nat): (c: Charge)
    ensures c.Charge? ==> c.mount < |w.mounts| && c.mount == Match(w.mounts, path) && w.mounts[c.mount].stats.Some?
  {
    var k := Match(w.mounts, path);
    if k == |w.mounts| || w.mounts[k].stats == None then Nothing
      else Charge(k, Blocks(size, w.mounts[k].stats.value.bsize))
  }

  /** What removing a file frees: only what is on disk and a plain file. */
  function Frees(w: Place, f: File): (c: Charge) {
    var path := w.root + f.name;
    if path !in w.disk || !w.disk[path].plain then Nothing else ChargeAt(w, path, w.disk[path].size)
  }

  /** What installing a file takes; hidden files stand for database entries. */
  function Takes(w: Place, f: File): (c: Charge) {
    if !f.plain then Nothing
    else ChargeAt(w, w.root + (if f.name != "" && f.name[0] == '.' then w.dbpath else f.name), f.size)
  }

  /** Mount point k is the first in the list that contains the path, and its statistics can be had. */
  ghost predicate Charged(w: Place, path: string, k: nat) {
    && k < |w.mounts| && w.mounts[k].stats.Some? && Contains(w.mounts[k].dir, path)
    && forall i :: 0 <= i < k ==> !Contains(w.mounts[i].dir, path)
  }

  /** The least number of whole blocks that hold so many bytes. */
  ghost predicate Holds(s: Stats, blocks: nat, size: nat) {
    s.bsize * (blocks - 1) < size <= s.bsize * blocks
  }

  /** Only plain files count: on removal as they are on disk, on installation as the package has them, where the
      hidden files of a package go to the database. */
  lemma ChargesExactly(w: Place, f: File, c: Charge)
    ensures c.Charge? ==>
      (Frees(w, f) == c <==>
       && w.root + f.name in w.disk && w.disk[w.root + f.name].plain && Charged(w, w.root + f.name, c.mount)
       && Holds(w.mounts[c.mount].stats.value, c.blocks, w.disk[w.root + f.name].size))
    ensures c.Charge? && (f.name == "" || f.name[0] != '.') ==>
      (Takes(w, f) == c <==>
       f.plain && Charged(w, w.root + f.name, c.mount) && Holds(w.mounts[c.mount].stats.value, c.blocks, f.size))
    ensures c.Charge? && f.name != "" && f.name[0] == '.' ==>
      (Takes(w, f) == c <==>
       f.plain && Charged(w, w.root + w.dbpath, c.mount) && Holds(w.mounts[c.mount].stats.value, c.blocks, f.size))
  {
    if c.Charge? {
      if w.root + f.name in w.disk { ChargedExactly(w, w.root + f.name, w.disk[w.root + f.name].size, c); }
      ChargedExactly(w, w.root + f.name, f.size, c);
      ChargedExactly(w, w.root + w.dbpath, f.size, c);
    }
  }

  lemma ChargedExactly(w: Place, path: string, size: nat, c: Charge)
    requires c.Charge?
    ensures ChargeAt(w, path, size) == c <==>
      Charged(w, path, c.mount) && Holds(w.mounts[c.mount].stats.value, c.blocks, size)
  {
    if Charged(w, path, c.mount) {
      assert Match(w.mounts, path) == c.mount;
      if Holds(w.mounts[c.mount].stats.value, c.blocks, size) {
        OneNumber(w.mounts[c.mount].stats.value.bsize, size, c.blocks,
                  Blocks(size, w.mounts[c.mount].stats.value.bsize));
      }
    }
  }

  lemma OneNumber(bsize: pos, size: nat, m: nat, n: nat)
    requires bsize * (m - 1) < size <= bsize * m && bsize * (n - 1) < size <= bsize * n
    ensures m == n
  {
    if m < n { Scaled(bsize, m, n - 1); }
    if n < m { Scaled(bsize, n, m - 1); }
  }

  lemma Scaled(bsize: pos, m: int, n: int)
    requires m <= n
    ensures bsize * m <= bsize * n
  {}

  function On(c: Charge, k: nat): (n: nat) {
    if c.Charge? && c.mount == k then c.blocks else 0
  }

  function FreedOn(w: Place, files: seq<File>, k: nat): (n: nat) {
    if files == [] then 0 else FreedOn(w, files[..|files| - 1], k) + On(Frees(w, files[|files| - 1]), k)
  }

  function TakenOn(w: Place, files: seq<File>, k: nat): (n: nat) {
    if files == [] then 0 else TakenOn(w, files[..|files| - 1], k) + On(Takes(w, files[|files| - 1]), k)
  }

  ghost predicate FreesAny(w: Place, files: seq<File>, k: nat) {
    exists i :: 0 <= i < |files| && Frees(w, files[i]).Charge? && Frees(w, files[i]).mount == k
  }

  ghost predicate TakesAny(w: Place, files: seq<File>, k: nat) {
    exists i :: 0 <= i < |files| && Takes(w, files[i]).Charge? && Takes(w, files[i]).mount == k
  }

  /** The counters of the mount points. */
  class Accounts {
    const needed: array<int>
    const highest: array<int>
    const frees: array<bool>
    const takes: array<bool>

    ghost predicate Fits(w: Place)
      reads this
    {
      && needed.Length == highest.Length == frees.Length == takes.Length == |w.mounts|
      && needed != highest && frees != takes
    }

    constructor (n: nat)
      ensures fresh(needed) && fresh(highest) && fresh(frees) && fresh(takes)
      ensures needed.Length == highest.Length == frees.Length == takes.Length == n && needed != highest
      ensures frees != takes
      ensures forall k :: 0 <= k < n ==> needed[k] == 0 && highest[k] == 0 && !frees[k] && !takes[k]
    {
      needed := new int[n](_ => 0);
      highest := new int[n](_ => 0);
      frees := new bool[n](_ => false);
      takes := new bool[n](_ => false);
    }

    /** calculate_removed_size */
    method Remove(w: Place, files: seq<File>)
      requires Fits(w)
      modifies needed, frees
      ensures forall k :: 0 <= k < |w.mounts| ==> needed[k] == old(needed[k]) - FreedOn(w, files, k)
      ensures forall k :: 0 <= k < |w.mounts| ==> (frees[k] <==> old(frees[k]) || FreesAny(w, files, k))
    {
      for i := 0 to |files|
        invariant forall k :: 0 <= k < |w.mounts| ==> needed[k] == old(needed[k]) - FreedOn(w, files[..i], k)
        invariant forall k :: 0 <= k < |w.mounts| ==> (frees[k] <==> old(frees[k]) || FreesAny(w, files[..i], k))
      {
        var c := Frees(w, files[i]);
        MoreFreed(w, files, i);
        if c.Charge? {
          needed[c.mount] := needed[c.mount] - c.blocks;
          frees[c.mount] := true;
        }
      }
      assert files[..|files|] == files;
    }

    /** calculate_installed_size */
    method Install(w: Place, files: seq<File>)
      requires Fits(w)
      modifies needed, takes
      ensures forall k :: 0 <= k < |w.mounts| ==> needed[k] == old(needed[k]) + TakenOn(w, files, k)
      ensures forall k :: 0 <= k < |w.mounts| ==> (takes[k] <==> old(takes[k]) || TakesAny(w, files, k))
    {
      for i := 0 to |files|
        invariant forall k :: 0 <= k < |w.mounts| ==> needed[k] == old(needed[k]) + TakenOn(w, files[..i], k)
        invariant forall k :: 0 <= k < |w.mounts| ==> (takes[k] <==> old(takes[k]) || TakesAny(w, files[..i], k))
      {
        var c := Takes(w, files[i]);
        MoreTaken(w, files, i);
        if c.Charge? {
          needed[c.mount] := needed[c.mount] + c.blocks;
          takes[c.mount] := true;
        }
      }
      assert files[..|files|] == files;
    }
  }

  lemma MoreFreed(w: Place, files: seq<File>, i: nat)
    requires i < |files|
    ensures forall k: nat :: FreedOn(w, files[..i + 1], k) == FreedOn(w, files[..i], k) + On(Frees(w, files[i]), k)
    ensures forall k: nat :: FreesAny(w, files[..i + 1], k) <==>
      FreesAny(w, files[..i], k) || (Frees(w, files[i]).Charge? && Frees(w, files[i]).mount == k)
  {
    assert files[..i + 1][..i] == files[..i] && files[..i + 1] == files[..i] + [files[i]];
    forall k: nat | FreesAny(w, files[..i], k) || (Frees(w, files[i]).Charge? && Frees(w, files[i]).mount == k)
      ensures FreesAny(w, files[..i + 1], k)
    {
      if FreesAny(w, files[..i], k) {
        var j :| 0 <= j < i && Frees(w, files[..i][j]).Charge? && Frees(w, files[..i][j]).mount == k;
        assert files[..i + 1][j] == files[..i][j];
      } else {
        assert files[..i + 1][i] == files[i];
      }
    }
  }

  lemma MoreTaken(w: Place, files: seq<File>, i: nat)
    requires i < |files|
    ensures forall k: nat :: TakenOn(w, files[..i + 1], k) == TakenOn(w, files[..i], k) + On(Takes(w, files[i]), k)
    ensures forall k: nat :: TakesAny(w, files[..i + 1], k) <==>
      TakesAny(w, files[..i], k) || (Takes(w, files[i]).Charge? && Takes(w, files[i]).mount == k)
  {
    assert files[..i + 1][..i] == files[..i] && files[..i + 1] == files[..i] + [files[i]];
    forall k: nat | TakesAny(w, files[..i], k) || (Takes(w, files[i]).Charge? && Takes(w, files[i]).mount == k)
      ensures TakesAny(w, files[..i + 1], k)
    {
      if TakesAny(w, files[..i], k) {
        var j :| 0 <= j < i && Takes(w, files[..i][j]).Charge? && Takes(w, files[..i][j]).mount == k;
        assert files[..i + 1][j] == files[..i][j];
      } else {
        assert files[..i + 1][i] == files[i];
      }
    }
  }

  // ---------- the whole transaction ----------

  /** A package to install, and the files of its installed version. */
  datatype Target = Target(files: seq<File>, installed: Option<seq<File>>)

  function FreedAll(w: Place, remove: seq<seq<File>>, k: nat): (n: nat) {
    if remove == [] then 0 else FreedAll(w, remove[..|remove| - 1], k) + FreedOn(w, remove[|remove| - 1], k)
  }

  /** What the installed version of a target frees. */
  function FreedBy(w: Place, t: Target, k: nat): (n: nat) {
    if t.installed.Some? then FreedOn(w, t.installed.value, k) else 0
  }

  /** The net blocks taken on mount point k after all removals and these installs. */
  function Net(w: Place, remove: seq<seq<File>>, add: seq<Target>, k: nat): (n: int) {
    if add == [] then 0 - FreedAll(w, remove, k)
    else
      var t := add[|add| - 1];
      Net(w, remove, add[..|add| - 1], k) - FreedBy(w, t, k) + TakenOn(w, t.files, k)
  }

  function Peak(w: Place, remove: seq<seq<File>>, add: seq<Target>, k: nat): (n: nat) {
    if add == [] then 0
    else
      var before, now := Peak(w, remove, add[..|add| - 1], k), Net(w, remove, add, k);
      if now > before then now else before
  }

  /** The peak is above the use after every prefix of the installs, and is reached unless it is zero. */
  lemma {:induction false} PeakBounds(w: Place, remove: seq<seq<File>>, add: seq<Target>, k: nat)
    ensures forall n :: 0 <= n <= |add| ==> Net(w, remove, add[..n], k) <= Peak(w, remove, add, k)
    ensures Peak(w, remove, add, k) == 0
      || exists n :: 0 <= n <= |add| && Net(w, remove, add[..n], k) == Peak(w, remove, add, k)
  {
    if add != [] {
      var m := |add| - 1;
      PeakBounds(w, remove, add[..m], k);
      assert add[..|add|] == add;
      forall n | 0 <= n <= |add| ensures Net(w, remove, add[..n], k) <= Peak(w, remove, add, k) {
        if n <= m { assert add[..m][..n] == add[..n]; }
      }
      if Net(w, remove, add, k) <= Peak(w, remove, add[..m], k) && Peak(w, remove, add[..m], k) > 0 {
        var n :| 0 <= n <= m && Net(w, remove, add[..m][..n], k) == Peak(w, remove, add[..m], k);
        assert add[..m][..n] == add[..n];
      }
    }
  }

  ghost predicate TakesSome(w: Place, add: seq<Target>, k: nat) {
    exists i :: 0 <= i < |add| && TakesAny(w, add[i].files, k)
  }

  ghost predicate FreesSome(w: Place, remove: seq<seq<File>>, add: seq<Target>, k: nat) {
    (exists i :: 0 <= i < |remove| && FreesAny(w, remove[i], k))
    || exists i :: 0 <= i < |add| && add[i].installed.Some? && FreesAny(w, add[i].installed.value, k)
  }

  ghost predicate Counted(acc: Accounts, w: Place, remove: seq<seq<File>>, add: seq<Target>)
    reads acc, acc.needed, acc.highest, acc.frees, acc.takes
  {
    && acc.Fits(w)
    && forall k :: 0 <= k < |w.mounts| ==>
         && acc.needed[k] == Net(w, remove, add, k) && acc.highest[k] == Peak(w, remove, add, k)
         && (acc.takes[k] <==> TakesSome(w, add, k)) && (acc.frees[k] <==> FreesSome(w, remove, add, k))
  }

  lemma MoreRemoved(w: Place, remove: seq<seq<File>>, i: nat, k: nat)
    requires i < |remove|
    ensures Net(w, remove[..i + 1], [], k) == Net(w, remove[..i], [], k) - FreedOn(w, remove[i], k)
    ensures FreesSome(w, remove[..i + 1], [], k) <==> FreesSome(w, remove[..i], [], k) || FreesAny(w, remove[i], k)
  {
    var r, s := remove[..i], remove[..i + 1];
    assert s[..i] == r && s[i] == remove[i];
    assert forall j :: 0 <= j < i ==> s[j] == r[j];
  }

  lemma MoreAdded(w: Place, remove: seq<seq<File>>, add: seq<Target>, i: nat, k: nat)
    requires i < |add|
    ensures Net(w, remove, add[..i + 1], k)
      == Net(w, remove, add[..i], k) - FreedBy(w, add[i], k) + TakenOn(w, add[i].files, k)
    ensures TakesSome(w, add[..i + 1], k) <==> TakesSome(w, add[..i], k) || TakesAny(w, add[i].files, k)
    ensures FreesSome(w, remove, add[..i + 1], k) <==>
      FreesSome(w, remove, add[..i], k) || (add[i].installed.Some? && FreesAny(w, add[i].installed.value, k))
  {
    var r, s := add[..i], add[..i + 1];
    assert s[..i] == r && s[i] == add[i];
    assert forall j :: 0 <= j < i ==> s[j] == r[j];
  }

  method CountRemovals(acc: Accounts, w: Place, remove: seq<seq<File>>)
    requires Counted(acc, w, [], [])
    modifies acc.needed, acc.frees
    ensures Counted(acc, w, remove, [])
  {
    for i := 0 to |remove|
      invariant Counted(acc, w, remove[..i], [])
    {
      forall k | 0 <= k < |w.mounts|
        ensures Net(w, remove[..i + 1], [], k) == Net(w, remove[..i], [], k) - FreedOn(w, remove[i], k)
        ensures FreesSome(w, remove[..i + 1], [], k) <==> FreesSome(w, remove[..i], [], k) || FreesAny(w, remove[i], k)
      {
        MoreRemoved(w, remove, i, k);
      }
      acc.Remove(w, remove[i]);
    }
    assert remove[..|remove|] == remove;
  }

  /** Takes the highest use so far. */
  method UpdateHighest(acc: Accounts, w: Place, ghost before: seq<int>)
    requires acc.Fits(w) && |before| == |w.mounts|
    requires forall k :: 0 <= k < |w.mounts| ==> acc.highest[k] == before[k]
    modifies acc.highest
    ensures forall k :: 0 <= k < |w.mounts| ==>
      acc.highest[k] == if acc.needed[k] > before[k] then acc.needed[k] else before[k]
  {
    for j := 0 to |w.mounts|
      invariant forall k :: 0 <= k < j ==>
        acc.highest[k] == if acc.needed[k] > before[k] then acc.needed[k] else before[k]
      invariant forall k :: j <= k < |w.mounts| ==> acc.highest[k] == before[k]
    {
      if acc.needed[j] > acc.highest[j] {
        acc.highest[j] := acc.needed[j];
      }
    }
  }

  /** One package to install. */
  method CountTarget(acc: Accounts, w: Place, ghost remove: seq<seq<File>>, add: seq<Target>, i: nat)
    requires i < |add| && Counted(acc, w, remove, add[..i])
    modifies acc.needed, acc.highest, acc.frees, acc.takes
    ensures Counted(acc, w, remove, add[..i + 1])
  {
    if add[i].installed.Some? {
      acc.Remove(w, add[i].installed.value);
    }
    acc.Install(w, add[i].files);
    ghost var before := acc.highest[..];
    UpdateHighest(acc, w, before);
    assert add[..i + 1][..i] == add[..i];
    forall k | 0 <= k < |w.mounts|
      ensures acc.needed[k] == Net(w, remove, add[..i + 1], k) && acc.highest[k] == Peak(w, remove, add[..i + 1], k)
      ensures acc.takes[k] <==> TakesSome(w, add[..i + 1], k)
      ensures acc.frees[k] <==> FreesSome(w, remove, add[..i + 1], k)
    {
      MoreAdded(w, remove, add, i, k);
    }
  }

  // ---------- the verdict ----------

  /** About 5 percent of the space or 20 MiB, whichever is less. */
  function Cushion(s: Stats): (n: nat)
    ensures n > 0 && 20 * (n - 1) <= s.blocks && (n - 1) * s.bsize <= 20 * 1024 * 1024
    ensures 20 * n > s.blocks || n * s.bsize > 20 * 1024 * 1024
  {
    var fivepc, twentymb := s.blocks / 20 + 1, 20 * 1024 * 1024 / s.bsize + 1;
    if fivepc < twentymb then fivepc else twentymb
  }

  /** check_mountpoint: whether the peak and the cushion are more than is available. */
  predicate TooFull(s: Stats, peak: int) {
    peak + Cushion(s) >= 0 && peak + Cushion(s) > s.bavail
  }

  /** Nothing is done on a read-only mount point. */
  ghost predicate Writable(w: Place, remove: seq<seq<File>>, add: seq<Target>, k: nat)
    requires k < |w.mounts|
  {
    w.mounts[k].readOnly ==> !TakesSome(w, add, k) && !FreesSome(w, remove, add, k)
  }

  /** What is installed on the mount point fits at every time, with the cushion. */
  ghost predicate Suffices(w: Place, remove: seq<seq<File>>, add: seq<Target>, k: nat)
    requires k < |w.mounts|
  {
    TakesSome(w, add, k) && w.mounts[k].stats.Some? ==>
      && Cushion(w.mounts[k].stats.value) <= w.mounts[k].stats.value.bavail
      && forall n :: 0 <= n <= |add| ==>
        Net(w, remove, add[..n], k) + Cushion(w.mounts[k].stats.value) <= w.mounts[k].stats.value.bavail
  }

  lemma TakersHaveStats(w: Place, add: seq<Target>, k: nat)
    requires TakesSome(w, add, k)
    ensures k < |w.mounts| && w.mounts[k].stats.Some?
  {}

  lemma SufficesExactly(w: Place, remove: seq<seq<File>>, add: seq<Target>, k: nat)
    requires k < |w.mounts| && TakesSome(w, add, k)
    ensures w.mounts[k].stats.Some?
    ensures Suffices(w, remove, add, k) <==> !TooFull(w.mounts[k].stats.value, Peak(w, remove, add, k))
  {
    TakersHaveStats(w, add, k);
    PeakBounds(w, remove, add, k);
  }

  method Verdict(acc: Accounts, w: Place, ghost remove: seq<seq<File>>, add: seq<Target>) returns (ok: bool)
    requires Counted(acc, w, remove, add)
    ensures ok <==> forall k :: 0 <= k < |w.mounts| ==> Writable(w, remove, add, k) && Suffices(w, remove, add, k)
  {
    ok := true;
    for k := 0 to |w.mounts|
      invariant ok <==> forall j :: 0 <= j < k ==> Writable(w, remove, add, j) && Suffices(w, remove, add, j)
    {
      if acc.takes[k] { SufficesExactly(w, remove, add, k); }
      var bad := ((acc.takes[k] || acc.frees[k]) && w.mounts[k].readOnly)
        || (acc.takes[k] && TooFull(w.mounts[k].stats.value, acc.highest[k]));
      assert bad <==> !(Writable(w, remove, add, k) && Suffices(w, remove, add, k));
      if bad {
        ok := false;
      }
    }
  }

  /** _alpm_check_diskspace: succeeds exactly if there is a mount point for the root, nothing happens on a
      read-only mount point, and the installs fit everywhere at all times. */
  method CheckDiskspace(w0: Place, remove: seq<seq<File>>, add: seq<Target>) returns (ok: bool, mounts: seq<Mount>)
    ensures DeepestFirst(mounts) && |mounts| == |w0.mounts| && forall m :: m in mounts <==> m in w0.mounts
    ensures var w := w0.(mounts := mounts);
      ok <==> Match(mounts, w.root) < |mounts| && forall k :: 0 <= k < |mounts| ==>
        Writable(w, remove, add, k) && Suffices(w, remove, add, k)
  {
    mounts := SortMounts(w0.mounts);
    var w := w0.(mounts := mounts);
    var k := MatchMountPoint(mounts, w.root);
    if k == |mounts| {
      return false, mounts;
    }
    var acc := new Accounts(|mounts|);
    CountRemovals(acc, w, remove);
    for i := 0 to |add|
      invariant Counted(acc, w, remove, add[..i]) && fresh(acc.needed) && fresh(acc.highest) && fresh(acc.frees)
      invariant fresh(acc.takes)
    {
      CountTarget(acc, w, remove, add, i);
    }
    assert add[..|add|] == add;
    ok := Verdict(acc, w, remove, add);
  }
}
