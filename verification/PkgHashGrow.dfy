/** Creation, growth and whole runs of the package cache (lib/libalpm/pkghash.c). */
module PkgHashGrow {
  import opened AlpmList
  import opened Packages
  import opened Probing
  import opened PkgHash

  /** b is the first size of the list that is larger than `size`. */
  ghost predicate FirstAbove(b: nat, size: nat) {
    exists i :: 0 <= i < |PRIMES| && PRIMES[i] == b > size && forall j :: 0 <= j < i ==> PRIMES[j] <= size
  }

  ghost predicate TooLarge(size: nat) {
    forall i :: 0 <= i < |PRIMES| ==> PRIMES[i] <= Inflated(size)
  }

  method Create(size0: nat) returns (h: Hash?)
    ensures h == null <==> TooLarge(size0)
    ensures h != null ==> fresh(h) && fresh(h.table) && h.Valid() && h.nodes == []
    ensures h != null ==> FirstAbove(h.table.Length, Inflated(size0))
  {
    var size := size0 * 100 / 58 + 1;
    for i := 0 to |PRIMES|
      invariant forall j :: 0 <= j < i ==> PRIMES[j] <= size
    {
      if PRIMES[i] > size {
        h := new Hash(PRIMES[i]);
        return;
      }
    }
    h := null;
  }

  /** The next size to ask for; growth slows down as the table gets larger. */
  function Grown(buckets: nat): (r: nat) {
    if buckets < 500 then buckets * 2
    else if buckets < 2000 then buckets * 3 / 2
    else if buckets < 5000 then buckets * 4 / 3
    else buckets + 1
  }

  /** The entries of a table, in slot order. */
  ghost function Entries(t: seq<Slot>): (r: seq<Node<Pkg>>) {
    if t == [] then []
    else Entries(t[..|t| - 1]) + (if t[|t| - 1] == null then [] else [t[|t| - 1]])
  }

  lemma {:induction false} EntriesMultiset(t: seq<Slot>)
    ensures Filed(t, Entries(t))
  {
    if t != [] {
      var t' := t[..|t| - 1];
      EntriesMultiset(t');
      assert t == t' + [t[|t| - 1]];
    }
  }

  lemma {:induction false} EntriesPrefix(t: seq<Slot>, i: nat)
    requires i <= |t|
    ensures |Entries(t[..i])| <= |Entries(t)|
    decreases |t| - i
  {
    if i == |t| {
      assert t[..i] == t;
    } else {
      EntriesPrefix(t, i + 1);
      assert t[..i + 1][..i] == t[..i];
    }
  }

  /** A table holds its nodes exactly when they are a rearrangement of its entries. */
  lemma EntriesOfFiled(t: seq<Slot>, ns: seq<Node<Pkg>>)
    requires Filed(t, ns)
    ensures multiset(Entries(t)) == multiset(ns) && |Entries(t)| == |ns|
  {
    EntriesMultiset(t);
    NoNull(t, ns);
    NoNull(t, Entries(t));
  }

  lemma NoNull(t: seq<Slot>, ns: seq<Node<Pkg>>)
    requires Filed(t, ns)
    ensures var s: seq<Slot> := ns; multiset(s) == multiset(t)[null := 0] && |ns| == |t| - multiset(t)[null]
  {
    var s: seq<Slot> := ns;
    assert null !in s;
    assert null !in multiset(s);
    assert multiset(s) == multiset(s)[null := |t| - |ns|][null := 0];
  }

  /** rehash: a larger table with the same list; nothing changes when no larger size is available. */
  method Rehash(oldhash: Hash) returns (newhash: Hash?)
    requires oldhash.Valid()
    modifies oldhash, oldhash.table
    ensures newhash == null <==> TooLarge(Grown(oldhash.table.Length))
    ensures newhash == null ==> unchanged(oldhash) && unchanged(oldhash.table)
    ensures newhash != null ==> fresh(newhash) && fresh(newhash.table)
    ensures newhash != null ==>
      newhash.Valid() && newhash.nodes == old(oldhash.nodes) && newhash.entries < newhash.limit
  {
    newhash := Create(Grown(oldhash.table.Length));
    if newhash == null { return; }
    GrownLimit(oldhash.table.Length, newhash.table.Length);
    Transfer(oldhash, newhash);
    oldhash.list := null;
  }

  /** Moves the entries of a table to a larger, empty one, which takes over the list. */
  method Transfer(oldhash: Hash, newhash: Hash)
    requires oldhash.Valid() && newhash.Valid() && newhash.nodes == [] && oldhash.table != newhash.table
    requires oldhash != newhash
    requires oldhash.limit < newhash.limit
    modifies oldhash.table, newhash, newhash.table
    ensures newhash.Valid() && newhash.nodes == oldhash.nodes && newhash.entries == oldhash.entries
  {
    ghost var t, ns := oldhash.table[..], oldhash.nodes;
    EntriesOfFiled(t, ns);
    Rebin(oldhash, newhash, t);
    FiledPermuted(newhash.table[..], Entries(t), ns);
    newhash.SetList(oldhash.list, oldhash.entries, ns);
  }

  lemma GrownLimit(b: nat, b': nat)
    requires 11 <= b && FirstAbove(b', Inflated(Grown(b)))
    ensures b * 68 / 100 < b' * 68 / 100
  {
    assert b' > Grown(b) * 100 / 58 + 1;
    assert Grown(b) >= b + 1;
  }

  lemma EntriesStep(t: seq<Slot>, i: nat)
    requires i < |t|
    ensures Entries(t[..i + 1]) == Entries(t[..i]) + (if t[i] == null then [] else [t[i]])
    ensures |Entries(t[..i])| <= |Entries(t)|
  {
    assert t[..i + 1][..i] == t[..i];
    EntriesPrefix(t, i);
  }

  /** Re-inserts the entry of slot i, if there is one. */
  method RebinSlot(oldhash: Hash, newhash: Hash, i: nat, ghost placed: seq<Node<Pkg>>)
    requires oldhash.table != newhash.table && i < oldhash.table.Length
    requires Filed(newhash.table[..], placed) && ProbingOk(newhash.table[..]) && |placed| < newhash.table.Length
    modifies oldhash.table, newhash.table
    ensures forall j :: i < j < oldhash.table.Length ==> oldhash.table[j] == old(oldhash.table[j])
    ensures ProbingOk(newhash.table[..])
    ensures Filed(newhash.table[..], placed + (if old(oldhash.table[i]) == null then [] else [old(oldhash.table[i])]))
  {
    var node := oldhash.table[i];
    if node != null {
      newhash.FillSlot(node, placed);
      oldhash.table[i] := null;
    } else {
      assert placed + [] == placed;
    }
  }

  /** Re-inserts every entry of the old table into the new one. */
  method Rebin(oldhash: Hash, newhash: Hash, ghost t: seq<Slot>)
    requires oldhash.table != newhash.table && oldhash.table[..] == t
    requires Filed(newhash.table[..], []) && ProbingOk(newhash.table[..]) && |Entries(t)| < newhash.table.Length
    modifies oldhash.table, newhash.table
    ensures Filed(newhash.table[..], Entries(t)) && ProbingOk(newhash.table[..])
  {
    for i := 0 to oldhash.table.Length
      invariant forall j :: i <= j < |t| ==> oldhash.table[j] == t[j]
      invariant Filed(newhash.table[..], Entries(t[..i])) && ProbingOk(newhash.table[..])
    {
      EntriesStep(t, i);
      RebinSlot(oldhash, newhash, i, Entries(t[..i]));
    }
    assert t[..oldhash.table.Length] == t;
  }

  /** pkghash_add_pkg: fails, changing nothing, only when the table is full and cannot grow. */
  method AddPkg(hash: Hash, pkg: Pkg, sorted: bool) returns (h: Hash, ok: bool, ghost ptr: Node?<Pkg>)
    requires hash.Valid() && pkg.name !in AsMap(hash.nodes)
    modifies hash, hash.table, hash.nodes
    ensures h.Valid() && (h == hash || (fresh(h) && fresh(h.table)))
    ensures ok <==> old(hash.entries) < hash.limit || !TooLarge(Grown(hash.table.Length))
    ensures !ok ==> h == hash && h.nodes == old(hash.nodes)
    ensures ok ==> ptr != null && fresh(ptr) && ptr.data == pkg && h.nodes == Inserted(old(hash.nodes), ptr, sorted)
    ensures ok ==> AsMap(h.nodes) == old(AsMap(hash.nodes))[pkg.name := pkg]
  {
    h, ok, ptr := hash, true, null;
    if hash.entries >= hash.limit {
      var larger := Rehash(hash);
      if larger == null {
        return hash, false, null;
      }
      h := larger;
    }
    ptr := h.Insert(pkg, sorted);
  }

  /** A sorted insertion keeps a sorted list sorted. */
  lemma SortedInsertion(ns: seq<Node<Pkg>>, ptr: Node<Pkg>)
    requires Sorted(ns, PkgCmp)
    ensures Sorted(Inserted(ns, ptr, true), PkgCmp)
  {
    PkgCmpOrders();
    MergeSorts(ns, [ptr], PkgCmp);
  }

  // ---------- whole runs ----------

  datatype Op = Add(pkg: Pkg, sorted: bool) | Remove(pkg: Pkg) | Find(name: string)

  datatype Out = Added | Duplicate | Full | Removed(data: Option<Pkg>) | Found(data: Option<Pkg>)

  /** How many packages a cache takes at least. */
  const CAPACITY := 385079

  /** A table that cannot grow any more is that large. */
  lemma FullIsLarge(buckets: nat)
    requires 11 <= buckets && TooLarge(Grown(buckets))
    ensures buckets * 68 / 100 >= CAPACITY
  {
    assert PRIMES[|PRIMES| - 1] == 976369;
    assert Inflated(Grown(buckets)) >= 976369;
  }

  lemma {:induction false} MapSize(ns: seq<Node<Pkg>>)
    requires UniqueNames(ns)
    ensures |AsMap(ns)| == |ns|
  {
    if ns != [] {
      var rest, name := ns[1..], ns[0].data.name;
      MapSize(rest);
      if name in AsMap(rest) {
        var i := AsMapFrom(rest, name);
      }
      assert AsMap(ns) - {name} == AsMap(rest);
    }
  }

  /** Whether `out` is the answer to op of a map m. Running out of table sizes, answered Full, needs a map that
      is not below the capacity. */
  ghost predicate Answers(m: map<string, Pkg>, op: Op, out: Out) {
    match op
    case Add(p, _) => if p.name in m then out == Duplicate else out == Added || (out == Full && |m| >= CAPACITY)
    case Remove(p) => out == Removed(Lookup(m, p.name))
    case Find(name) => out == Found(Lookup(m, name))
  }

  ghost function After(m: map<string, Pkg>, op: Op, out: Out): (m': map<string, Pkg>) {
    match op
    case Add(p, _) => if out == Added then m[p.name := p] else m
    case Remove(p) => m - {p.name}
    case Find(_) => m
  }

  /** The map after a run that started with an empty one. */
  ghost function AfterRun(ops: seq<Op>, outs: seq<Out>): (m: map<string, Pkg>)
    requires |ops| == |outs|
  {
    if ops == [] then map[]
    else var n := |ops| - 1; After(AfterRun(ops[..n], outs[..n]), ops[n], outs[n])
  }

  /** Every answer of the run is that of the map at that point. */
  ghost predicate Explains(ops: seq<Op>, outs: seq<Out>) {
    |ops| == |outs| && forall i :: 0 <= i < |ops| ==> ExplainsAt(ops, outs, i)
  }

  /** The answer at position j is right. */
  ghost predicate ExplainsAt(ops: seq<Op>, outs: seq<Out>, j: nat)
    requires j < |ops| == |outs|
  {
    Answers(AfterRun(ops[..j], outs[..j]), ops[j], outs[j])
  }

  lemma EarlierStays(ops: seq<Op>, i: nat, outs: seq<Out>, out: Out, j: nat)
    requires j < i < |ops| && |outs| == i && ExplainsAt(ops[..i], outs, j)
    ensures ExplainsAt(ops[..i + 1], outs + [out], j)
  {
    assert ops[..i + 1][..j] == ops[..i][..j] && (outs + [out])[..j] == outs[..j];
    assert ops[..i + 1][j] == ops[..i][j] && (outs + [out])[j] == outs[j];
  }

  lemma RunStep(ops: seq<Op>, i: nat, outs: seq<Out>, out: Out)
    requires i < |ops| && |outs| == i
    ensures AfterRun(ops[..i + 1], outs + [out]) == After(AfterRun(ops[..i], outs), ops[i], out)
    ensures Answers(AfterRun(ops[..i], outs), ops[i], out) ==> ExplainsAt(ops[..i + 1], outs + [out], i)
  {
    assert ops[..i + 1][..i] == ops[..i] && (outs + [out])[..i] == outs;
  }

  lemma ExplainsStep(ops: seq<Op>, i: nat, outs: seq<Out>, out: Out)
    requires i < |ops| && |outs| == i && Explains(ops[..i], outs)
    requires Answers(AfterRun(ops[..i], outs), ops[i], out)
    ensures Explains(ops[..i + 1], outs + [out])
    ensures AfterRun(ops[..i + 1], outs + [out]) == After(AfterRun(ops[..i], outs), ops[i], out)
  {
    var ops', outs' := ops[..i + 1], outs + [out];
    RunStep(ops, i, outs, out);
    forall j | 0 <= j < |ops'| ensures ExplainsAt(ops', outs', j) {
      if j < i { EarlierStays(ops, i, outs, out, j); }
    }
  }

  /** An addition as the database loaders make it: only when the name is not there yet. */
  method CheckedAdd(hash: Hash, p: Pkg, sorted: bool) returns (h: Hash, out: Out)
    requires hash.Valid()
    modifies hash, hash.table, hash.nodes
    ensures h.Valid() && (h == hash || (fresh(h) && fresh(h.table)))
    ensures forall k :: 0 <= k < |h.nodes| ==> h.nodes[k] in old(hash.nodes) || fresh(h.nodes[k])
    ensures Answers(old(AsMap(hash.nodes)), Add(p, sorted), out)
    ensures AsMap(h.nodes) == After(old(AsMap(hash.nodes)), Add(p, sorted), out)
  {
    var r := hash.Find(p.name);
    if r != None {
      h, out := hash, Duplicate;
    } else {
      h, out := AddNew(hash, p, sorted);
    }
  }

  method AddNew(hash: Hash, p: Pkg, sorted: bool) returns (h: Hash, out: Out)
    requires hash.Valid() && p.name !in AsMap(hash.nodes)
    modifies hash, hash.table, hash.nodes
    ensures h.Valid() && (h == hash || (fresh(h) && fresh(h.table)))
    ensures forall k :: 0 <= k < |h.nodes| ==> h.nodes[k] in old(hash.nodes) || fresh(h.nodes[k])
    ensures out == Added || (out == Full && |old(AsMap(hash.nodes))| >= CAPACITY)
    ensures AsMap(h.nodes) == if out == Added then old(AsMap(hash.nodes))[p.name := p] else old(AsMap(hash.nodes))
  {
    var ok; ghost var ptr;
    ghost var ns := hash.nodes;
    h, ok, ptr := AddPkg(hash, p, sorted);
    out := if ok then Added else Full;
    if ok {
      InsertedMembers(ns, ptr, sorted);
    } else {
      FullIsLarge(hash.table.Length);
      MapSize(ns);
    }
  }

  lemma InsertedMembers(ns: seq<Node<Pkg>>, p: Node<Pkg>, sorted: bool)
    ensures var r := Inserted(ns, p, sorted); forall k :: 0 <= k < |r| ==> r[k] in ns || r[k] == p
  {
    var r := Inserted(ns, p, sorted);
    MergePermutes(ns, [p], PkgCmp);
    assert multiset(r) == multiset(ns + [p]);
    SamePermutationMembers(r, ns + [p]);
  }

  method Take(hash: Hash, p: Pkg) returns (out: Out)
    requires hash.Valid()
    modifies hash, hash.table, hash.nodes
    ensures hash.Valid() && forall k :: 0 <= k < |hash.nodes| ==> hash.nodes[k] in old(hash.nodes)
    ensures Answers(old(AsMap(hash.nodes)), Remove(p), out)
    ensures AsMap(hash.nodes) == After(old(AsMap(hash.nodes)), Remove(p), out)
  {
    var data := hash.Remove(p);
    out := Removed(data);
  }

  method Step(hash: Hash, op: Op) returns (h: Hash, out: Out)
    requires hash.Valid()
    modifies hash, hash.table, hash.nodes
    ensures h.Valid() && (h == hash || (fresh(h) && fresh(h.table)))
    ensures forall k :: 0 <= k < |h.nodes| ==> h.nodes[k] in old(hash.nodes) || fresh(h.nodes[k])
    ensures Answers(old(AsMap(hash.nodes)), op, out)
    ensures AsMap(h.nodes) == After(old(AsMap(hash.nodes)), op, out)
  {
    h := hash;
    match op
    case Add(p, sorted) =>
      h, out := CheckedAdd(hash, p, sorted);
    case Remove(p) =>
      out := Take(hash, p);
    case Find(name) =>
      var data := hash.Find(name);
      out := Found(data);
  }

  /** Over any sequence of operations on a new cache, every answer is that of a map. */
  method Run(size: nat, ops: seq<Op>) returns (outs: seq<Out>)
    ensures !TooLarge(size) ==> Explains(ops, outs)
  {
    outs := [];
    var hash := Create(size);
    if hash == null { return; }
    for i := 0 to |ops|
      invariant hash != null && hash.Valid() && fresh(hash) && fresh(hash.table)
      invariant forall k :: 0 <= k < |hash.nodes| ==> fresh(hash.nodes[k])
      invariant |outs| == i && Explains(ops[..i], outs) && AsMap(hash.nodes) == AfterRun(ops[..i], outs)
    {
      var out;
      hash, out := Step(hash, ops[i]);
      ExplainsStep(ops, i, outs, out);
      outs := outs + [out];
    }
    assert ops[..|ops|] == ops;
  }
}
