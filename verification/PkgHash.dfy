/** The package cache of lib/libalpm/pkghash.c: an open-addressing hash table whose slots point at the
    nodes of a linked list. It behaves as a map from package name to package. */
module PkgHash {
  import opened AlpmList
  import opened Packages
  import opened Probing

  type Buckets = n: nat | 11 <= n witness 11

  const PRIMES: seq<Buckets> := [
    11, 13, 17, 19, 23, 29, 31, 37, 41, 43, 47,
    53, 59, 61, 67, 71, 73, 79, 83, 89, 97, 103,
    109, 113, 127, 137, 139, 149, 157, 167, 179, 193,
    199, 211, 227, 241, 257, 277, 293, 313, 337, 359,
    383, 409, 439, 467, 503, 541, 577, 619, 661, 709,
    761, 823, 887, 953, 1031, 1109, 1193, 1289, 1381,
    1493, 1613, 1741, 1879, 2029, 2179, 2357, 2549,
    2753, 2971, 3209, 3469, 3739, 4027, 4349, 4703,
    5087, 5503, 5953, 6427, 6949, 7517, 8123, 8783,
    9497, 10273, 11113, 12011, 12983, 14033, 15173,
    16411, 17749, 19183, 20753, 22447, 24281, 26267,
    28411, 30727, 33223, 35933, 38873, 42043, 45481,
    49201, 53201, 57557, 62233, 67307, 72817, 78779,
    85229, 92203, 99733, 107897, 116731, 126271, 136607,
    147793, 159871, 172933, 187091, 202409, 218971, 236897,
    256279, 277261, 299951, 324503, 351061, 379787, 410857,
    444487, 480881, 520241, 562841, 608903, 658753, 712697,
    771049, 834181, 902483, 976369
  ]

  /** size / initial_hash_load + 1 */
  function Inflated(size: nat): (r: nat) {
    size * 100 / 58 + 1
  }

  /** The table holds exactly the nodes ns, each once, and is empty elsewhere. */
  ghost predicate Filed(t: seq<Slot>, ns: seq<Node<Pkg>>) {
    var s: seq<Slot> := ns;
    |ns| <= |t| && multiset(t) == multiset(s)[null := |t| - |ns|]
  }

  ghost predicate UniqueNames(ns: seq<Node<Pkg>>) {
    forall i, j :: 0 <= i < j < |ns| ==> ns[i].data.name != ns[j].data.name
  }

  /** The map from name to package that a list of uniquely named packages stands for. */
  ghost function AsMap(ns: seq<Node<Pkg>>): (m: map<string, Pkg>) {
    if ns == [] then map[] else AsMap(ns[1..])[ns[0].data.name := ns[0].data]
  }

  lemma {:induction false} AsMapHas(ns: seq<Node<Pkg>>, i: nat)
    requires UniqueNames(ns) && i < |ns|
    ensures ns[i].data.name in AsMap(ns) && AsMap(ns)[ns[i].data.name] == ns[i].data
  {
    if i > 0 { AsMapHas(ns[1..], i - 1); }
  }

  lemma {:induction false} AsMapFrom(ns: seq<Node<Pkg>>, name: string) returns (i: nat)
    requires name in AsMap(ns)
    ensures i < |ns| && ns[i].data.name == name
  {
    if ns[0].data.name == name {
      i := 0;
    } else {
      i := AsMapFrom(ns[1..], name);
      i := i + 1;
    }
  }

  /** Two lists stand for the same map when they hold the same packages. */
  lemma AsMapSame(ns: seq<Node<Pkg>>, ns': seq<Node<Pkg>>)
    requires UniqueNames(ns) && UniqueNames(ns') && Within(ns, ns') && Within(ns', ns)
    ensures AsMap(ns) == AsMap(ns')
  {
    AsMapWithin(ns, ns');
    AsMapWithin(ns', ns);
  }

  lemma AsMapWithin(ns: seq<Node<Pkg>>, ns': seq<Node<Pkg>>)
    requires UniqueNames(ns) && UniqueNames(ns') && Within(ns, ns')
    ensures forall name :: name in AsMap(ns) ==> name in AsMap(ns') && AsMap(ns')[name] == AsMap(ns)[name]
  {
    forall name | name in AsMap(ns) ensures name in AsMap(ns') && AsMap(ns')[name] == AsMap(ns)[name] {
      var i := AsMapFrom(ns, name);
      AsMapHas(ns, i);
      var j: nat :| j < |ns'| && ns'[j] == ns[i];
      AsMapHas(ns', j);
    }
  }

  class Hash {
    const table: array<Slot>
    const limit: nat
    var list: Node?<Pkg>
    var entries: nat
    ghost var nodes: seq<Node<Pkg>>

    ghost predicate Valid()
      reads this, table, nodes
    {
      && IsList(list, nodes) && UniqueNames(nodes)
      && entries == |nodes| <= limit && limit == table.Length * 68 / 100 && 11 <= table.Length
      && Filed(table[..], nodes) && ProbingOk(table[..])
    }

    constructor (buckets: nat)
      requires 11 <= buckets
      ensures Valid() && nodes == [] && table.Length == buckets && fresh(table)
    {
      table := new Slot[buckets](i => null);
      list, entries, limit, nodes := null, 0, buckets * 68 / 100, [];
      new;
      AllNull(table[..]);
    }

    /** First empty slot from the package's home slot on. */
    method GetHashPosition(p: Pkg) returns (pos: nat)
      requires null in table[..]
      ensures FirstFree(table[..], Home(p.name, table.Length), pos)
    {
      ghost var t, n := table[..], table.Length;
      ghost var e: nat :| e < n && t[e] == null;
      ghost var home := Home(p.name, n);
      pos := Home(p.name, table.Length);
      while table[pos] != null
        invariant pos < n && RunUpTo(t, home, pos, -1)
        invariant Dist(home, pos, n) <= Dist(home, e, n)
        decreases Dist(pos, e, n)
      {
        pos := if pos + 1 == table.Length then 0 else pos + 1;
      }
    }

    /** Probes for a name; without the load limit the search could miss the end of the run. */
    method Probe(name: string) returns (pos: nat, found: bool)
      requires null in table[..]
      ensures pos < table.Length
      ensures found ==> table[pos] != null && table[pos].data.name == name
      ensures !found ==> table[pos] == null && NotBefore(table[..], name, Home(name, table.Length), pos)
    {
      ghost var t, n := table[..], table.Length;
      ghost var e: nat :| e < n && t[e] == null;
      ghost var home := Home(name, n);
      pos := Home(name, table.Length);
      while table[pos] != null
        invariant pos < n && RunUpTo(t, home, pos, -1)
        invariant Dist(home, pos, n) <= Dist(home, e, n)
        invariant NotBefore(t, name, home, pos)
        decreases Dist(pos, e, n)
      {
        if table[pos].data.name == name {
          return pos, true;
        }
        pos := if pos + 1 == table.Length then 0 else pos + 1;
      }
      found := false;
    }

    method Find(name: string) returns (r: Option<Pkg>)
      requires Valid()
      ensures r == Lookup(AsMap(nodes), name)
    {
      FiledHasNull(table[..], nodes);
      var pos, found := Probe(name);
      FiledMembers(table[..], nodes);
      if found {
        r := Some(table[pos].data);
        assert table[..][pos] in nodes;
        ghost var k: nat :| k < |nodes| && nodes[k] == table[pos];
        AsMapHas(nodes, k);
      } else {
        r := None;
        ProbeMiss(table[..], name, pos);
        NameAbsent(table[..], nodes, name);
      }
    }

    /** The backward scan of move_one_entry: the last entry of the run that hashes to the hole, or the hole. */
    method FindMovable(start: nat, end0: nat) returns (end: nat)
      requires HoleAndRun(table[..], start, end0) && ProbingBut(table[..], start)
      ensures end < table.Length && Dist(start, end, table.Length) <= Dist(start, end0, table.Length)
      ensures end != start ==> table[end] != null && Needs(table[..], end, start)
      ensures end == start ==> NoneNeeds(table[..], start, start, end0)
    {
      ghost var t, n := table[..], table.Length;
      end := end0;
      while end != start
        invariant end < n && Dist(start, end, n) <= Dist(start, end0, n)
        invariant NoneNeeds(t, start, end, end0)
        decreases Dist(start, end, n)
      {
        var i := table[end];
        assert t[start] == null;
        var newPosition := GetHashPosition(i.data);
        HashesToHole(t, start, end0, end, newPosition);
        if newPosition == start {
          return;
        }
        end := if end == 0 then table.Length - 1 else end - 1;
      }
    }

    /** Moves one entry into the hole at `start`; returns the new hole, or `start` when none moves. */
    method MoveOneEntry(start: nat, end0: nat) returns (end: nat)
      requires HoleAndRun(table[..], start, end0) && ProbingBut(table[..], start)
      modifies table
      ensures end < table.Length && HoleAndRun(table[..], end, end0)
      ensures multiset(table[..]) == old(multiset(table[..]))
      ensures ProbingBut(table[..], if end == start then -1 else end)
      ensures end != start ==> Dist(end, end0, table.Length) < Dist(start, end0, table.Length)
    {
      ghost var t := table[..];
      end := FindMovable(start, end0);
      if end != start {
        PlugOk(t, start, end0, end);
        table[start] := table[end];
        table[end] := null;
        assert table[..] == t[start := t[end]][end := null];
      } else {
        PluggedOk(t, start, end0);
      }
    }

    /** The last slot of the run of entries that follows the hole. */
    method FindStop(position: nat, ghost e: nat) returns (stop: nat)
      requires position < table.Length && e < table.Length && e != position
      requires table[position] == null && table[e] == null
      ensures HoleAndRun(table[..], position, stop)
    {
      ghost var t, n := table[..], table.Length;
      stop := if position + 1 == table.Length then 0 else position + 1;
      while table[stop] != null && stop != position
        invariant stop < n && 0 < Dist(position, stop, n) <= Dist(position, e, n)
        invariant forall j :: 0 <= j < n && 0 < Dist(position, j, n) < Dist(position, stop, n) ==> t[j] != null
        decreases Dist(stop, e, n)
      {
        stop := if stop + 1 == table.Length then 0 else stop + 1;
      }
      stop := if stop == 0 then table.Length - 1 else stop - 1;
    }

    /** Restores the probing invariant after the entry at `position` was taken out. */
    method PlugHole(position0: nat, ghost e: nat)
      requires position0 < table.Length && e < table.Length && e != position0
      requires table[position0] == null && table[e] == null && ProbingBut(table[..], position0)
      modifies table
      ensures ProbingOk(table[..])
      ensures multiset(table[..]) == old(multiset(table[..]))
    {
      var stop := FindStop(position0, e);
      var position: nat, moved := position0, true;
      while moved
        invariant position < table.Length && HoleAndRun(table[..], position, stop)
        invariant ProbingBut(table[..], if moved then position else -1)
        invariant multiset(table[..]) == old(multiset(table[..]))
        decreases Dist(position, stop, table.Length), moved
      {
        var prev := MoveOneEntry(position, stop);
        moved := prev != position;
        position := prev;
      }
    }

    /** _alpm_pkghash_remove: the map loses exactly that name, and the list exactly its node. */
    method Remove(pkg: Pkg) returns (data: Option<Pkg>)
      requires Valid()
      modifies this, table, nodes
      ensures Valid()
      ensures data == old(Lookup(AsMap(nodes), pkg.name))
      ensures AsMap(nodes) == old(AsMap(nodes)) - {pkg.name}
      ensures if data == None then nodes == old(nodes)
              else exists k :: 0 <= k < |old(nodes)| && nodes == Without(old(nodes), k)
    {
      ghost var t, ns := table[..], nodes;
      FiledHasNull(t, ns);
      var position, found := Probe(pkg.name);
      if !found {
        ProbeMiss(t, pkg.name, position);
        NameAbsent(t, ns, pkg.name);
        return None;
      }
      data := Some(table[position].data);
      ghost var k := NodeOf(t, ns, position);
      RemovesName(ns, k);
      RemoveAt(position, k);
    }

    /** Takes the entry at `position` out of list and table and repairs the probing. */
    method RemoveAt(position: nat, ghost k: nat)
      requires Valid() && position < table.Length && k < |nodes| && table[position] == nodes[k]
      modifies this, table, nodes
      ensures Valid() && nodes == Without(old(nodes), k)
    {
      ghost var ns := nodes;
      var n := entries - 1;
      WithoutUnique(ns, k);
      var rest := UnlinkAndClear(position, ns, k);
      SetList(rest, n, Without(ns, k));
    }

    /** Both halves of a removal. */
    method UnlinkAndClear(position: nat, ghost ns: seq<Node<Pkg>>, ghost k: nat) returns (rest: Node?<Pkg>)
      requires IsList(list, ns) && position < table.Length && k < |ns| && table[position] == ns[k]
      requires Filed(table[..], ns) && |ns| < table.Length && ProbingOk(table[..])
      modifies table, ns
      ensures IsList(rest, Without(ns, k)) && Filed(table[..], Without(ns, k)) && ProbingOk(table[..])
    {
      var i: Node<Pkg> := table[position];
      rest := RemoveItem(list, i, ns, k);
      ClearSlot(position, ns, k);
    }

    /** The table's half of a removal. */
    method ClearSlot(position: nat, ghost ns: seq<Node<Pkg>>, ghost k: nat)
      requires Filed(table[..], ns) && |ns| < table.Length && ProbingOk(table[..])
      requires position < table.Length && k < |ns| && table[position] == ns[k]
      modifies table
      ensures Filed(table[..], Without(ns, k)) && ProbingOk(table[..])
    {
      ghost var t := table[..];
      ghost var e := TakeOut(t, ns, position, k);
      table[position] := null;
      assert table[..] == t[position := null];
      PlugHole(position, e);
    }

    /** The table's half of an insertion. */
    method FillSlot(ptr: Node<Pkg>, ghost ns: seq<Node<Pkg>>)
      requires Filed(table[..], ns) && |ns| < table.Length && ProbingOk(table[..])
      modifies table
      ensures Filed(table[..], ns + [ptr]) && ProbingOk(table[..])
    {
      ghost var t := table[..];
      FiledHasNull(t, ns);
      var position := GetHashPosition(ptr.data);
      table[position] := ptr;
      assert table[..] == t[position := ptr];
      InsertOk(t, position, ptr);
      FiledInsert(t, ns, position, ptr);
    }

    /** The list's half of an insertion. */
    static method LinkIn(list: Node?<Pkg>, p: Node<Pkg>, sorted: bool, ghost ns: seq<Node<Pkg>>) returns (l: Node?<Pkg>)
      requires IsList(list, ns) && IsList(p, [p]) && Disjoint(ns, [p])
      modifies p, ns
      ensures IsList(l, Inserted(ns, p, sorted))
    {
      if !sorted {
        l := Join(list, p, ns, [p]);
      } else {
        l := MMerge(list, p, PkgCmp, ns, [p]);
      }
    }

    method SetList(l: Node?<Pkg>, n: nat, ghost ns: seq<Node<Pkg>>)
      requires IsList(l, ns) && UniqueNames(ns) && n == |ns| <= limit
      requires limit == table.Length * 68 / 100 && 11 <= table.Length
      requires Filed(table[..], ns) && ProbingOk(table[..])
      modifies this
      ensures Valid() && nodes == ns && list == l
    {
      list, entries, nodes := l, n, ns;
    }

    /** Both halves of an insertion. */
    method FillAndLink(p: Node<Pkg>, sorted: bool, ghost ns: seq<Node<Pkg>>) returns (l: Node?<Pkg>)
      requires IsList(list, ns) && IsList(p, [p]) && Disjoint(ns, [p])
      requires multiset(Inserted(ns, p, sorted)) == multiset(ns + [p])
      requires Filed(table[..], ns) && |ns| < table.Length && ProbingOk(table[..])
      modifies table, p, ns
      ensures IsList(l, Inserted(ns, p, sorted)) && Filed(table[..], Inserted(ns, p, sorted)) && ProbingOk(table[..])
    {
      FillSlot(p, ns);
      FiledPermuted(table[..], ns + [p], Inserted(ns, p, sorted));
      l := LinkIn(list, p, sorted, ns);
    }

    /** pkghash_add_pkg once there is room. */
    method Insert(pkg: Pkg, sorted: bool) returns (ghost ptr: Node<Pkg>)
      requires Valid() && entries < limit && pkg.name !in AsMap(nodes)
      modifies this, table, nodes
      ensures Valid() && fresh(ptr) && ptr.data == pkg
      ensures nodes == Inserted(old(nodes), ptr, sorted)
      ensures AsMap(nodes) == old(AsMap(nodes))[pkg.name := pkg]
    {
      ghost var ns := nodes;
      var n := entries + 1;
      var p := new Node(pkg);
      ptr := p;
      InsertedFacts(ns, p, sorted);
      var l := FillAndLink(p, sorted, ns);
      SetList(l, n, Inserted(ns, p, sorted));
    }
  }

  ghost function Inserted(ns: seq<Node<Pkg>>, p: Node<Pkg>, sorted: bool): (r: seq<Node<Pkg>>) {
    if sorted then Merge(ns, [p], PkgCmp) else ns + [p]
  }

  /** No slot from `home` up to pos holds an entry of that name. */
  ghost predicate NotBefore(t: seq<Slot>, name: string, home: nat, pos: nat)
    requires home < |t| && pos < |t|
  {
    forall j :: 0 <= j < |t| && t[j] != null && Dist(home, j, |t|) < Dist(home, pos, |t|) ==> t[j].data.name != name
  }

  /** A probe that meets an empty slot has seen every entry of that name. */
  lemma ProbeMiss(t: seq<Slot>, name: string, pos: nat)
    requires ProbingOk(t) && pos < |t| && t[pos] == null && NotBefore(t, name, Home(name, |t|), pos)
    ensures forall i :: 0 <= i < |t| && t[i] != null ==> t[i].data.name != name
  {
    forall i | 0 <= i < |t| && t[i] != null ensures t[i].data.name != name {
      assert RunUpTo(t, Home(t[i].data.name, |t|), i, -1);
    }
  }

  // ---------- how the table and the list hold the same nodes ----------

  lemma AllNull(t: seq<Slot>)
    requires forall i :: 0 <= i < |t| ==> t[i] == null
    ensures Filed(t, [])
  {
    if t != [] {
      AllNull(t[1..]);
      assert t == [t[0]] + t[1..];
    }
  }

  lemma FiledHasNull(t: seq<Slot>, ns: seq<Node<Pkg>>)
    requires Filed(t, ns) && |ns| < |t|
    ensures null in t
  {
    assert null in multiset(t);
  }

  lemma FiledMembers(t: seq<Slot>, ns: seq<Node<Pkg>>)
    requires Filed(t, ns)
    ensures forall i :: 0 <= i < |t| && t[i] != null ==> t[i] in ns
    ensures forall k :: 0 <= k < |ns| ==> ns[k] in t
  {
    var s: seq<Slot> := ns;
    forall i | 0 <= i < |t| && t[i] != null ensures t[i] in ns {
      assert t[i] in multiset(t);
      assert t[i] in s;
    }
    forall k | 0 <= k < |ns| ensures ns[k] in t {
      assert s[k] in multiset(s);
      assert s[k] in multiset(t);
    }
  }

  lemma NodeOf(t: seq<Slot>, ns: seq<Node<Pkg>>, pos: nat) returns (k: nat)
    requires Filed(t, ns) && pos < |t| && t[pos] != null
    ensures k < |ns| && ns[k] == t[pos]
  {
    FiledMembers(t, ns);
    k :| 0 <= k < |ns| && ns[k] == t[pos];
  }

  lemma NameAbsent(t: seq<Slot>, ns: seq<Node<Pkg>>, name: string)
    requires Filed(t, ns) && UniqueNames(ns)
    requires forall i :: 0 <= i < |t| && t[i] != null ==> t[i].data.name != name
    ensures name !in AsMap(ns)
  {
    FiledMembers(t, ns);
    forall k | 0 <= k < |ns| ensures ns[k].data.name != name {
      assert ns[k] in t;
    }
    NotNamed(ns, name);
  }

  lemma TwoNulls(t: seq<Slot>, pos: nat) returns (e: nat)
    requires pos < |t| && t[pos] == null && multiset(t)[null] >= 2
    ensures e < |t| && e != pos && t[e] == null
  {
    var a, b := t[..pos], t[pos + 1..];
    assert t == a + [null] + b;
    assert multiset(t) == multiset(a) + multiset([null]) + multiset(b);
    if null in multiset(a) {
      e :| 0 <= e < |a| && a[e] == null;
    } else {
      assert null in multiset(b);
      var i :| 0 <= i < |b| && b[i] == null;
      e := pos + 1 + i;
    }
  }

  lemma WithoutMultiset<A>(s: seq<A>, k: nat)
    requires k < |s|
    ensures multiset(Without(s, k)) == multiset(s) - multiset{s[k]}
  {
    assert s == s[..k] + [s[k]] + s[k + 1..];
  }

  /** Taking the entry of node ns[k] out of its slot leaves a hole, and another empty slot. */
  lemma TakeOut(t: seq<Slot>, ns: seq<Node<Pkg>>, pos: nat, k: nat) returns (e: nat)
    requires Filed(t, ns) && |ns| < |t| && ProbingOk(t)
    requires pos < |t| && k < |ns| && t[pos] == ns[k]
    ensures var t', ns' := t[pos := null], Without(ns, k);
      && Filed(t', ns') && ProbingBut(t', pos)
      && e < |t| && e != pos && t'[e] == null
  {
    var t', ns' := t[pos := null], Without(ns, k);
    var s: seq<Slot> := ns;
    WithoutMultiset(s, k);
    assert Filed(t', ns');
    e := TwoNulls(t', pos);
    HoleOk(t, pos);
  }

  lemma HoleOk(t: seq<Slot>, pos: nat)
    requires ProbingOk(t) && pos < |t|
    ensures ProbingBut(t[pos := null], pos)
  {
    var t' := t[pos := null];
    forall i | 0 <= i < |t'| && t'[i] != null ensures RunUpTo(t', Home(t'[i].data.name, |t'|), i, pos) {
      assert RunUpTo(t, Home(t[i].data.name, |t|), i, -1);
    }
  }

  lemma WithoutUnique(ns: seq<Node<Pkg>>, k: nat)
    requires UniqueNames(ns) && k < |ns|
    ensures var ns' := Without(ns, k);
      && UniqueNames(ns') && Within(ns', ns)
      && (forall i :: 0 <= i < |ns'| ==> ns'[i].data.name != ns[k].data.name)
  {
    var ns' := Without(ns, k);
    forall i | 0 <= i < |ns'| ensures ns'[i] in ns && ns'[i].data.name != ns[k].data.name {
      assert ns'[i] == ns[if i < k then i else i + 1];
    }
    forall i, j | 0 <= i < j < |ns'| ensures ns'[i].data.name != ns'[j].data.name {
      assert ns'[i] == ns[if i < k then i else i + 1] && ns'[j] == ns[if j < k then j else j + 1];
    }
  }

  lemma NotNamed(ns: seq<Node<Pkg>>, name: string)
    requires forall i :: 0 <= i < |ns| ==> ns[i].data.name != name
    ensures name !in AsMap(ns)
  {
    if name in AsMap(ns) {
      var i := AsMapFrom(ns, name);
      assert false;
    }
  }

  lemma StillNamed(ns: seq<Node<Pkg>>, k: nat, name: string)
    requires UniqueNames(ns) && k < |ns| && UniqueNames(Without(ns, k))
    requires name in AsMap(ns) && name != ns[k].data.name
    ensures name in AsMap(Without(ns, k))
  {
    var i := AsMapFrom(ns, name);
    var i' := if i < k then i else i - 1;
    assert Without(ns, k)[i'] == ns[i];
    AsMapHas(Without(ns, k), i');
  }

  lemma RemovesName(ns: seq<Node<Pkg>>, k: nat)
    requires UniqueNames(ns) && k < |ns|
    ensures UniqueNames(Without(ns, k))
    ensures Lookup(AsMap(ns), ns[k].data.name) == Some(ns[k].data)
    ensures AsMap(Without(ns, k)) == AsMap(ns) - {ns[k].data.name}
  {
    var ns', gone := Without(ns, k), ns[k].data.name;
    AsMapHas(ns, k);
    WithoutUnique(ns, k);
    AsMapWithin(ns', ns);
    NotNamed(ns', gone);
    forall name | name in AsMap(ns) && name != gone ensures name in AsMap(ns') {
      StillNamed(ns, k, name);
    }
    MapMinus(AsMap(ns), AsMap(ns'), gone);
  }

  lemma MapMinus<K, V>(m: map<K, V>, m': map<K, V>, gone: K)
    requires gone !in m'
    requires forall x :: x in m' ==> x in m && m[x] == m'[x]
    requires forall x :: x in m && x != gone ==> x in m'
    ensures m' == m - {gone}
  {}

  lemma FiledInsert(t: seq<Slot>, ns: seq<Node<Pkg>>, pos: nat, ptr: Node<Pkg>)
    requires Filed(t, ns) && |ns| < |t| && pos < |t| && t[pos] == null
    ensures Filed(t[pos := ptr], ns + [ptr])
  {
    var s: seq<Slot> := ns;
    var s': seq<Slot> := ns + [ptr];
    assert s' == s + [ptr];
    assert multiset(s') == multiset(s) + multiset{ptr as Slot};
  }

  lemma FiledPermuted(t: seq<Slot>, ns: seq<Node<Pkg>>, ns': seq<Node<Pkg>>)
    requires Filed(t, ns) && multiset(ns) == multiset(ns')
    ensures Filed(t, ns')
  {
    assert |ns| == |multiset(ns)| == |ns'|;
    var s: seq<Slot>, s': seq<Slot> := ns, ns';
    assert multiset(s) == multiset(s');
  }

  lemma AddsName(ns: seq<Node<Pkg>>, ptr: Node<Pkg>)
    requires UniqueNames(ns) && ptr.data.name !in AsMap(ns)
    ensures UniqueNames(ns + [ptr]) && Disjoint(ns, [ptr])
    ensures AsMap(ns + [ptr]) == AsMap(ns)[ptr.data.name := ptr.data]
  {
    var ns', name := ns + [ptr], ptr.data.name;
    forall i | 0 <= i < |ns| ensures ns[i].data.name != name { AsMapHas(ns, i); }
    assert UniqueNames(ns');
    AsMapHas(ns', |ns|);
    assert Within(ns, ns');
    AsMapWithin(ns, ns');
    forall x | x in AsMap(ns') && x != name ensures x in AsMap(ns) {
      var i := AsMapFrom(ns', x);
      AsMapHas(ns, i);
    }
  }

  /** A sorted insertion holds the same nodes, with the same unique names, as an appending one. */
  lemma MergedIn(ns: seq<Node<Pkg>>, ptr: Node<Pkg>)
    requires UniqueNames(ns + [ptr])
    ensures var ns' := Merge(ns, [ptr], PkgCmp);
      && multiset(ns') == multiset(ns + [ptr]) && |ns'| == |ns| + 1
      && UniqueNames(ns') && AsMap(ns') == AsMap(ns + [ptr])
  {
    var a, b := ns + [ptr], Merge(ns, [ptr], PkgCmp);
    MergePermutes(ns, [ptr], PkgCmp);
    assert multiset(a) == multiset(b);
    SamePermutationMembers(a, b);
    SamePermutationMembers(b, a);
    UniquePermuted(a, b);
    AsMapSame(a, b);
  }

  lemma InsertedFacts(ns: seq<Node<Pkg>>, p: Node<Pkg>, sorted: bool)
    requires UniqueNames(ns) && p.data.name !in AsMap(ns)
    ensures var ns' := Inserted(ns, p, sorted);
      && multiset(ns') == multiset(ns + [p]) && |ns'| == |ns| + 1
      && UniqueNames(ns') && AsMap(ns') == AsMap(ns)[p.data.name := p.data] && Disjoint(ns, [p])
  {
    AddsName(ns, p);
    MergedIn(ns, p);
  }

  lemma UniquePermuted(a: seq<Node<Pkg>>, b: seq<Node<Pkg>>)
    requires UniqueNames(a) && multiset(a) == multiset(b)
    ensures UniqueNames(b)
  {
    forall i, j | 0 <= i < j < |b| ensures b[i].data.name != b[j].data.name {
      SamePermutationMembers(b, a);
      var i' :| 0 <= i' < |a| && a[i'] == b[i];
      var j' :| 0 <= j' < |a| && a[j'] == b[j];
      if i' == j' {
        assert b == b[..j] + b[j..] && b[i] == b[..j][i] && b[j] == b[j..][0];
        assert multiset(b) == multiset(b[..j]) + multiset(b[j..]);
        assert b[i] in multiset(b[..j]) && b[j] in multiset(b[j..]);
        assert multiset(a)[a[i']] >= 2;
        OnceEach(a, i');
      }
    }
  }

  lemma OnceEach(a: seq<Node<Pkg>>, i: nat)
    requires UniqueNames(a) && i < |a|
    ensures multiset(a)[a[i]] == 1
  {
    WithoutMultiset(a, i);
    WithoutUnique(a, i);
    assert a[i] !in Without(a, i);
    assert a[i] !in multiset(Without(a, i));
  }
}
