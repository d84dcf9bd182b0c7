/** Making room for a saved configuration file (lib/libalpm/remove.c: shift_pacsave): file.pacsave becomes
    file.pacsave.1, and each file.pacsave.N becomes file.pacsave.N+1. */
module Pacsave {
  import opened Packages
  import opened Version
  import opened VersionOrder

  const ULONG_MAX: nat := 0xFFFF_FFFF_FFFF_FFFF

  /** The contents of the regular files; directories are kept apart. */
  type Files = map<string, string>

  function Look(fs: Files, path: string): (r: Option<string>) {
    if path in fs then Some(fs[path]) else None
  }

  // ---------- the names of saved files ----------

  function Decimal(n: nat): (s: string)
    ensures s != ""
  {
    if n < 10 then [('0' as int + n) as char] else Decimal(n / 10) + [('0' as int + n % 10) as char]
  }

  lemma {:induction false} DecimalValue(n: nat)
    ensures AllDigits(Decimal(n)) && Value(Decimal(n)) == n
  {
    if n >= 10 {
      DecimalValue(n / 10);
      assert Decimal(n)[..|Decimal(n)| - 1] == Decimal(n / 10);
    }
  }

  function Slot(file: string, i: nat): (s: string) {
    if i == 0 then file + ".pacsave" else file + ".pacsave." + Decimal(i)
  }

  lemma SlotsApart(file: string, i: nat, j: nat)
    requires i != j
    ensures Slot(file, i) != Slot(file, j)
  {
    var a, b := file + ".pacsave.", file + ".pacsave";
    DecimalValue(i);
    DecimalValue(j);
    assert (a + Decimal(i))[|a|..] == Decimal(i) && (a + Decimal(j))[|a|..] == Decimal(j);
    assert |a + Decimal(i)| > |b| && |a + Decimal(j)| > |b|;
  }

  ghost predicate Apart(file: string) {
    forall i: nat, j: nat :: i != j ==> Slot(file, i) != Slot(file, j)
  }

  lemma AllApart(file: string)
    ensures Apart(file)
  {
    forall i: nat, j: nat | i != j ensures Slot(file, i) != Slot(file, j) { SlotsApart(file, i, j); }
  }

  // ---------- the scan ----------

  /** strtoul on a string that does not start with a blank or a sign. */
  function Strtoul(s: string): (r: nat)
    ensures r <= ULONG_MAX
  {
    DigitsAre(s);
    var v := Value(s[..Digits(s)]);
    if v > ULONG_MAX then ULONG_MAX else v
  }

  lemma {:induction false} AllAreDigits(s: string)
    requires AllDigits(s)
    ensures Digits(s) == |s|
  {
    if s != "" { AllAreDigits(s[1..]); }
  }

  /** The number read off a directory entry that matched. */
  function Number(name: string, base: string): (n: nat) {
    var k := |base| + |".pacsave."|;
    if k <= |name| then Strtoul(name[k..]) else 0
  }

  predicate Relevant(name: string, matches: string -> bool) {
    name != "." && name != ".." && matches(name)
  }

  /** The largest number among the entries that match, or 0. */
  ghost predicate IsLargest(entries: seq<string>, base: string, matches: string -> bool, max: nat) {
    && max <= ULONG_MAX
    && (forall k :: 0 <= k < |entries| && Relevant(entries[k], matches) ==> Number(entries[k], base) <= max)
    && (max == 0 || exists k :: 0 <= k < |entries| && Relevant(entries[k], matches) && Number(entries[k], base) == max)
  }

  method Scan(entries: seq<string>, base: string, matches: string -> bool) returns (max: nat)
    ensures IsLargest(entries, base, matches, max)
  {
    max := 0;
    for i := 0 to |entries|
      invariant max <= ULONG_MAX
      invariant forall k :: 0 <= k < i && Relevant(entries[k], matches) ==> Number(entries[k], base) <= max
      invariant max == 0 || exists k :: 0 <= k < i && Relevant(entries[k], matches) && Number(entries[k], base) == max
    {
      if Relevant(entries[i], matches) {
        var current := Number(entries[i], base);
        if current > max {
          max := current;
        }
      }
    }
  }

  // ---------- the shift ----------

  /** From where the shift starts: the increment of the largest number may wrap around. */
  function Top(max: nat): (top: nat) {
    if max >= ULONG_MAX then 0 else max
  }

  /** The rename of the file in slot i succeeds; its failure is ignored. */
  predicate Moved(fs: Files, file: string, fails: nat -> bool, i: nat) {
    Slot(file, i) in fs && !fails(i)
  }

  /** What slot j holds when the files from slot i on have been moved up. */
  function ShiftedFrom(fs: Files, file: string, top: nat, fails: nat -> bool, i: nat, j: nat): (r: Option<string>) {
    if i < j <= top + 1 && Moved(fs, file, fails, j - 1) then Look(fs, Slot(file, j - 1))
    else if i <= j <= top && Moved(fs, file, fails, j) then None
    else Look(fs, Slot(file, j))
  }

  /** What the whole shift leaves in slot j. */
  function Shifted(fs: Files, file: string, top: nat, fails: nat -> bool, j: nat): (r: Option<string>) {
    ShiftedFrom(fs, file, top, fails, 0, j)
  }

  /** From slot i on, a file moves to where another one stays: above the top, or since it could not be moved. */
  ghost predicate OverwritesFrom(fs: Files, file: string, top: nat, fails: nat -> bool, i: nat) {
    exists k: nat :: i <= k <= top && Moved(fs, file, fails, k) && Slot(file, k + 1) in fs && (k == top || fails(k + 1))
  }

  ghost predicate Overwrites(fs: Files, file: string, top: nat, fails: nat -> bool) {
    OverwritesFrom(fs, file, top, fails, 0)
  }

  /** If no rename fails, a file is overwritten exactly if the top slot and the next are taken. */
  lemma OverwritesExactly(fs: Files, file: string, top: nat, fails: nat -> bool)
    requires forall i: nat :: !fails(i)
    ensures Overwrites(fs, file, top, fails) <==> Slot(file, top) in fs && Slot(file, top + 1) in fs
  {
    if Slot(file, top) in fs && Slot(file, top + 1) in fs {
      assert Moved(fs, file, fails, top);
    }
  }

  /** rename(2) on regular files */
  method Rename(fs: Files, src: string, dst: string) returns (r: Files, ghost overwrites: bool)
    ensures forall p :: Look(r, p) == if src !in fs || src == dst then Look(fs, p)
                                      else if p == dst then Look(fs, src) else if p == src then None else Look(fs, p)
    ensures overwrites <==> src in fs && dst in fs && src != dst
  {
    overwrites := src in fs && dst in fs && src != dst;
    r := fs;
    if src in fs && src != dst {
      r := (fs - {src})[dst := fs[src]];
    }
  }

  ghost predicate OthersSame(fs: Files, r: Files, file: string) {
    forall p :: (forall j: nat :: p != Slot(file, j)) ==> Look(r, p) == Look(fs, p)
  }

  /** One rename of the shift, from slot i to the next; fs is what there was before the shift. */
  method MoveUp(r0: Files, file: string, fails: nat -> bool, i: nat, ghost fs: Files, ghost top: nat)
    returns (r: Files, ghost hit: bool)
    requires Apart(file) && i <= top
    requires forall j: nat :: Look(r0, Slot(file, j)) == ShiftedFrom(fs, file, top, fails, i + 1, j)
    ensures forall j: nat :: Look(r, Slot(file, j)) == ShiftedFrom(fs, file, top, fails, i, j)
    ensures OthersSame(r0, r, file)
    ensures hit <==> Moved(fs, file, fails, i) && Slot(file, i + 1) in fs && (i == top || fails(i + 1))
  {
    r, hit := r0, false;
    assert Look(r0, Slot(file, i)) == Look(fs, Slot(file, i));
    assert Slot(file, i + 1) in r0 <==> Look(r0, Slot(file, i + 1)) != None;
    if !fails(i) {
      r, hit := Rename(r0, Slot(file, i), Slot(file, i + 1));
    }
  }

  /** Moves file.pacsave.N to file.pacsave.N+1, from the top down. */
  method ShiftNumbered(fs: Files, file: string, top: nat, fails: nat -> bool) returns (r: Files, ghost overwrites: bool)
    requires Apart(file)
    ensures forall j: nat :: Look(r, Slot(file, j)) == ShiftedFrom(fs, file, top, fails, 1, j)
    ensures OthersSame(fs, r, file)
    ensures overwrites <==> OverwritesFrom(fs, file, top, fails, 1)
  {
    r, overwrites := fs, false;
    var i: nat := top + 1;
    while i > 1
      invariant 1 <= i <= top + 1 && OthersSame(fs, r, file)
      invariant forall j: nat :: Look(r, Slot(file, j)) == ShiftedFrom(fs, file, top, fails, i, j)
      invariant overwrites <==> OverwritesFrom(fs, file, top, fails, i)
    {
      ghost var hit;
      r, hit := MoveUp(r, file, fails, i - 1, fs, top);
      OneMoreOverwrites(fs, file, top, fails, i - 1);
      overwrites := overwrites || hit;
      i := i - 1;
    }
  }

  lemma OneMoreOverwrites(fs: Files, file: string, top: nat, fails: nat -> bool, i: nat)
    requires i <= top
    ensures OverwritesFrom(fs, file, top, fails, i) <==>
      OverwritesFrom(fs, file, top, fails, i + 1)
        || (Moved(fs, file, fails, i) && Slot(file, i + 1) in fs && (i == top || fails(i + 1)))
  {}

  /** shift_pacsave, once the directory has been scanned: what every slot holds, and when a file is overwritten. */
  method Shift(fs: Files, file: string, max: nat, fails: nat -> bool) returns (r: Files, ghost overwrites: bool)
    requires max <= ULONG_MAX
    ensures forall j: nat :: Look(r, Slot(file, j)) == Shifted(fs, file, Top(max), fails, j)
    ensures OthersSame(fs, r, file)
    ensures overwrites <==> Overwrites(fs, file, Top(max), fails)
  {
    AllApart(file);
    r, overwrites := fs, false;
    if max < ULONG_MAX {
      r, overwrites := ShiftNumbered(fs, file, max, fails);
    }
    ghost var hit;
    r, hit := MoveUp(r, file, fails, 0, fs, Top(max));
    OneMoreOverwrites(fs, file, Top(max), fails, 0);
    overwrites := overwrites || hit;
  }

  /** Unless one is overwritten, each saved file is found one place up or, if it could not be moved or is above
      the top, where it was. */
  lemma EachIsKept(fs: Files, file: string, top: nat, fails: nat -> bool, j: nat)
    requires !Overwrites(fs, file, top, fails) && Slot(file, j) in fs
    ensures Shifted(fs, file, top, fails, if j <= top && !fails(j) then j + 1 else j) == Look(fs, Slot(file, j))
  {
    if 0 < j <= top + 1 && (j > top || fails(j)) {
      var k: nat := j - 1;
      assert k + 1 == j && (Moved(fs, file, fails, k) ==> Overwrites(fs, file, top, fails));
    }
  }

  /** A scan that matches nothing, although there are two saved files, loses the older one. */
  lemma UnmatchedScanLoses(file: string, fails: nat -> bool)
    requires !fails(0)
    ensures var fs: Files := map[Slot(file, 0) := "newer", Slot(file, 1) := "older"];
      forall j: nat :: Shifted(fs, file, Top(0), fails, j) != Some("older")
  {
    AllApart(file);
  }

  // ---------- when the scan sees every saved file ----------

  lemma SlotNumber(base: string, n: nat)
    ensures Number(base + ".pacsave." + Decimal(n), base) == if n > ULONG_MAX then ULONG_MAX else n
  {
    var name, k := base + ".pacsave." + Decimal(n), |base| + |".pacsave."|;
    assert name[k..] == Decimal(n);
    DecimalValue(n);
    AllAreDigits(Decimal(n));
    assert Decimal(n)[..|Decimal(n)|] == Decimal(n);
  }

  /** The pattern built from the base name matches the saved files of that base name; it always does
      unless the base name has characters with a special meaning in patterns. */
  ghost predicate MatchesSlots(base: string, matches: string -> bool) {
    forall n: nat :: n > 0 ==> Relevant(base + ".pacsave." + Decimal(n), matches)
  }

  /** Every regular file of the directory is among the entries. */
  ghost predicate Listing(fs: Files, dir: string, entries: seq<string>) {
    forall name :: dir + name in fs && '/' !in name ==> name in entries
  }

  lemma SlotListed(fs: Files, dir: string, base: string, entries: seq<string>, n: nat)
    requires Listing(fs, dir, entries) && '/' !in base && n > 0 && Slot(dir + base, n) in fs
    ensures base + ".pacsave." + Decimal(n) in entries
  {
    var name := base + ".pacsave." + Decimal(n);
    assert Slot(dir + base, n) == dir + name;
    DecimalValue(n);
    assert forall i :: 0 <= i < |Decimal(n)| ==> Decimal(n)[i] != '/';
    assert '/' !in name;
  }

  /** A scan that sees every saved file finds a number no smaller than theirs. */
  lemma ScanCovers(fs: Files, dir: string, base: string, entries: seq<string>, matches: string -> bool, max: nat)
    requires Listing(fs, dir, entries) && '/' !in base && MatchesSlots(base, matches) && max < ULONG_MAX
    requires forall k :: 0 <= k < |entries| && Relevant(entries[k], matches) ==> Number(entries[k], base) <= max
    ensures forall n: nat :: Slot(dir + base, n) in fs ==> n <= max
  {
    forall n: nat | n > 0 && Slot(dir + base, n) in fs ensures n <= max {
      SlotListed(fs, dir, base, entries, n);
      var name := base + ".pacsave." + Decimal(n);
      var k :| 0 <= k < |entries| && entries[k] == name;
      SlotNumber(base, n);
      assert Relevant(name, matches);
    }
  }

  /** Whether the numbers of the saved files are below the range of the counter. */
  ghost predicate SmallNumbers(entries: seq<string>, base: string, matches: string -> bool) {
    forall k :: 0 <= k < |entries| && Relevant(entries[k], matches) ==> Number(entries[k], base) < ULONG_MAX
  }

  /** The pattern matches the saved files, their numbers are small, and no rename fails. */
  ghost predicate Tame(entries: seq<string>, base: string, matches: string -> bool, fails: nat -> bool) {
    MatchesSlots(base, matches) && SmallNumbers(entries, base, matches) && forall i: nat :: !fails(i)
  }

  /** shift_pacsave. Without a usable pattern or directory nothing happens. Otherwise the shift starts at the
      largest number found. When the pattern matches the saved files and all renames succeed, every one of them
      moves up by one and none is overwritten. */
  method ShiftPacsave(fs: Files, dir: string, base: string, entries: seq<string>, usable: bool, matches: string -> bool,
                      fails: nat -> bool)
    returns (r: Files, ghost overwrites: bool, ghost max: nat)
    requires '/' !in base && Listing(fs, dir, entries)
    ensures usable ==> IsLargest(entries, base, matches, max)
    ensures usable ==> forall j: nat :: Look(r, Slot(dir + base, j)) == Shifted(fs, dir + base, Top(max), fails, j)
    ensures overwrites <==> usable && Overwrites(fs, dir + base, Top(max), fails)
    ensures OthersSame(fs, r, dir + base)
    ensures !usable ==> r == fs && !overwrites
    ensures usable && Tame(entries, base, matches, fails) ==> !overwrites && Slot(dir + base, 0) !in r
    ensures usable && Tame(entries, base, matches, fails) ==>
      forall j: nat :: Look(r, Slot(dir + base, j + 1)) == Look(fs, Slot(dir + base, j))
  {
    if !usable {
      return fs, false, 0;
    }
    var largest := Scan(entries, base, matches);
    max := largest;
    r, overwrites := Shift(fs, dir + base, largest, fails);
    if Tame(entries, base, matches, fails) {
      ScanCovers(fs, dir, base, entries, matches, max);
      OverwritesExactly(fs, dir + base, max, fails);
    }
  }
}
