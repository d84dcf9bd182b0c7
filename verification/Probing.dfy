/** Linear probing, on the sequence of slots of a hash table: what a table must satisfy for every
    entry to be found from its home slot, and how that survives insertion and hole plugging. */
module Probing {
  import opened AlpmList
  import opened Packages

  type Slot = Node?<Pkg>

  function Home(name: string, n: nat): (h: nat)
    requires n > 0
    ensures h < n
  {
    NameHash(name) % n
  }

  /** How many steps forward, wrapping around, lead from slot a to slot b. */
  function Dist(a: nat, b: nat, n: nat): (d: nat)
    requires a < n && b < n
    ensures d < n
  {
    if a <= b then b - a else n + b - a
  }

  function Next(i: nat, n: nat): (r: nat)
    requires i < n
    ensures r < n
  {
    if i + 1 == n then 0 else i + 1
  }

  /** The slots from `home` up to, not including, slot i are all taken, `hole` excepted. */
  ghost predicate RunUpTo(t: seq<Slot>, home: nat, i: nat, hole: int)
    requires home < |t| && i < |t|
  {
    forall j :: 0 <= j < |t| && j != hole && Dist(home, j, |t|) < Dist(home, i, |t|) ==> t[j] != null
  }

  /** Every entry is reachable from its home slot, if slot `hole` is counted as taken. */
  ghost predicate ProbingBut(t: seq<Slot>, hole: int) {
    forall i :: 0 <= i < |t| && t[i] != null ==> RunUpTo(t, Home(t[i].data.name, |t|), i, hole)
  }

  /** Every entry is reachable from its home slot without meeting an empty slot. */
  ghost predicate ProbingOk(t: seq<Slot>) {
    ProbingBut(t, -1)
  }

  /** The first empty slot from `home` on. */
  ghost predicate FirstFree(t: seq<Slot>, home: nat, pos: nat) {
    home < |t| && pos < |t| && t[pos] == null && RunUpTo(t, home, pos, -1)
  }

  lemma InsertOk(t: seq<Slot>, pos: nat, node: Node<Pkg>)
    requires |t| > 0 && ProbingOk(t) && FirstFree(t, Home(node.data.name, |t|), pos)
    ensures ProbingOk(t[pos := node])
  {
    var t' := t[pos := node];
    forall i | 0 <= i < |t'| && t'[i] != null
      ensures RunUpTo(t', Home(t'[i].data.name, |t'|), i, -1)
    {
      if i != pos { assert RunUpTo(t, Home(t[i].data.name, |t|), i, -1); }
    }
  }

  /** Slots start+1 .. end are taken and the slot after end, which is not start, is empty. */
  ghost predicate HoleAndRun(t: seq<Slot>, start: nat, end: nat) {
    && start < |t| && end < |t| && t[start] == null
    && t[Next(end, |t|)] == null && Next(end, |t|) != start
    && forall j :: 0 <= j < |t| && 0 < Dist(start, j, |t|) <= Dist(start, end, |t|) ==> t[j] != null
  }

  ghost predicate Needs(t: seq<Slot>, k: nat, hole: nat)
    requires k < |t| && hole < |t| && t[k] != null
  {
    var home := Home(t[k].data.name, |t|);
    Dist(home, hole, |t|) < Dist(home, k, |t|)
  }

  /** No entry after slot `from`, up to slot `end`, needs the hole. */
  ghost predicate NoneNeeds(t: seq<Slot>, hole: nat, from: nat, end: nat)
    requires hole < |t| && from < |t| && end < |t|
  {
    forall k :: 0 <= k < |t| && Dist(hole, from, |t|) < Dist(hole, k, |t|) <= Dist(hole, end, |t|) && t[k] != null
      ==> !Needs(t, k, hole)
  }

  /** The test of move_one_entry, "does this entry now hash to start", is whether it needs the hole. */
  lemma HashesToHole(t: seq<Slot>, start: nat, end: nat, k: nat, pos: nat)
    requires HoleAndRun(t, start, end) && ProbingBut(t, start)
    requires k < |t| && 0 < Dist(start, k, |t|) <= Dist(start, end, |t|)
    requires t[k] != null && FirstFree(t, Home(t[k].data.name, |t|), pos)
    ensures pos == start <==> Needs(t, k, start)
  {
    var home := Home(t[k].data.name, |t|);
    assert RunUpTo(t, home, k, start);
    var e := Next(end, |t|);
    if Needs(t, k, start) {
      assert Dist(home, pos, |t|) <= Dist(home, start, |t|);
    } else {
      assert Dist(home, e, |t|) < Dist(home, start, |t|);
    }
  }

  /** Moving an entry that needs the hole into it opens a new hole at its old slot. */
  lemma PlugOk(t: seq<Slot>, start: nat, end: nat, k: nat)
    requires HoleAndRun(t, start, end) && ProbingBut(t, start)
    requires k < |t| && 0 < Dist(start, k, |t|) <= Dist(start, end, |t|)
    requires t[k] != null && Needs(t, k, start)
    ensures var t' := t[start := t[k]][k := null];
      ProbingBut(t', k) && HoleAndRun(t', k, end) && multiset(t') == multiset(t)
  {
    var t' := t[start := t[k]][k := null];
    forall i | 0 <= i < |t'| && t'[i] != null
      ensures RunUpTo(t', Home(t'[i].data.name, |t'|), i, k)
    {
      if i == start {
        assert RunUpTo(t, Home(t[k].data.name, |t|), k, start);
      } else {
        assert RunUpTo(t, Home(t[i].data.name, |t|), i, start);
      }
    }
  }

  /** When no entry of the run needs the hole, nothing does, and the table is in order again. */
  lemma PluggedOk(t: seq<Slot>, start: nat, end: nat)
    requires HoleAndRun(t, start, end) && ProbingBut(t, start)
    requires NoneNeeds(t, start, start, end)
    ensures ProbingOk(t)
  {
    forall i | 0 <= i < |t| && t[i] != null
      ensures RunUpTo(t, Home(t[i].data.name, |t|), i, -1)
    {
      var home := Home(t[i].data.name, |t|);
      assert RunUpTo(t, home, i, start);
      assert Dist(home, Next(end, |t|), |t|) >= Dist(home, i, |t|);
      assert !Needs(t, i, start);
    }
  }
}
