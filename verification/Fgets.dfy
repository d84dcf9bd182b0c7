/** Reading lines from an archive entry that comes in blocks (lib/libalpm/util.c: _alpm_archive_fgets). */
module Fgets {
  import opened Packages

  const ARCHIVE_OK := 0
  const ARCHIVE_EOF := 1
  const ARCHIVE_FATAL := -30
  const ERANGE := 34

  // ---------- lines ----------

  /** The first line of t ends at k. */
  ghost predicate EndsAt(t: string, k: nat) {
    k <= |t| && '\n' !in t[..k] && (k < |t| ==> t[k] == '\n')
  }

  lemma {:induction false} SomeEnd(t: string) returns (k: nat)
    ensures EndsAt(t, k)
  {
    k := 0;
    if t != "" && t[0] != '\n' {
      k := SomeEnd(t[1..]);
      assert t[..k + 1] == [t[0]] + t[1..][..k];
      k := k + 1;
    }
  }

  ghost function FirstNewline(t: string): (k: nat)
    ensures EndsAt(t, k)
  {
    assert exists k: nat :: EndsAt(t, k) by { var k := SomeEnd(t); }
    var k: nat :| EndsAt(t, k);
    k
  }

  lemma OneEnd(t: string, k: nat)
    requires EndsAt(t, k)
    ensures FirstNewline(t) == k
  {
    var f := FirstNewline(t);
    assert forall i :: 0 <= i < f ==> t[..f][i] == t[i];
    assert forall i :: 0 <= i < k ==> t[..k][i] == t[i];
  }

  /** The text split at its newlines: one line more than there are newlines. */
  ghost function Split(t: string): (lines: seq<string>)
    decreases |t|
  {
    var k := FirstNewline(t);
    if k == |t| then [t] else [t[..k]] + Split(t[k + 1..])
  }

  /** Lines joined with newlines between them. */
  function Join(lines: seq<string>): (t: string)
    requires lines != []
  {
    if |lines| == 1 then lines[0] else lines[0] + "\n" + Join(lines[1..])
  }

  /** Splitting loses nothing and leaves no newline in a line. */
  lemma {:induction false} SplitJoins(t: string)
    ensures Split(t) != [] && Join(Split(t)) == t && forall i :: 0 <= i < |Split(t)| ==> '\n' !in Split(t)[i]
    decreases |t|
  {
    var k := FirstNewline(t);
    if k < |t| {
      SplitJoins(t[k + 1..]);
      assert Split(t)[1..] == Split(t[k + 1..]);
      assert t == t[..k] + "\n" + t[k + 1..];
    } else {
      assert t[..k] == t;
    }
  }

  function Concat(blocks: seq<string>): (t: string) {
    if blocks == [] then "" else blocks[0] + Concat(blocks[1..])
  }

  // ---------- the archive and the buffer ----------

  /** An archive entry: its data in blocks, none of them empty, and where reading fails. */
  class Archive {
    const blocks: seq<string>
    const fails: nat -> bool
    var next: nat
    var broken: bool

    constructor (blocks: seq<string>, fails: nat -> bool)
      ensures this.blocks == blocks && this.fails == fails && next == 0 && !broken
    {
      this.blocks, this.fails := blocks, fails;
      next, broken := 0, false;
    }

    ghost predicate Fails() {
      exists n :: 0 <= n <= |blocks| && fails(n)
    }

    /** What is broken failed. */
    ghost predicate Valid()
      reads this
    {
      && (broken ==> Fails())
      && next <= |blocks| && forall k :: 0 <= k < |blocks| ==> blocks[k] != "" && '\0' !in blocks[k]
    }

    ghost function Rest(): (t: string)
      reads this
      requires Valid()
    {
      Concat(blocks[next..])
    }

    /** archive_read_data_block: the next block, or an empty one at the end, or a failure. */
    method ReadBlock() returns (ret: int, block: string)
      requires Valid()
      modifies this
      ensures Valid() && ret in {ARCHIVE_OK, ARCHIVE_EOF, ARCHIVE_FATAL}
      ensures ret >= 0 ==> block + Rest() == old(Rest()) && '\0' !in block && broken == old(broken)
      ensures ret == ARCHIVE_EOF ==> block == "" && Rest() == ""
      ensures ret == ARCHIVE_OK ==> block != "" && next == old(next) + 1
      ensures ret < 0 ==> broken
      ensures ret < 0 <==> fails(old(next))
    {
      if fails(next) {
        broken := true;
        return ARCHIVE_FATAL, "";
      }
      if next == |blocks| {
        return ARCHIVE_EOF, "";
      }
      assert blocks[next..][1..] == blocks[next + 1..];
      block := blocks[next];
      next := next + 1;
      ret := ARCHIVE_OK;
    }
  }

  /** memchr for a newline, and if there is none for a NUL. */
  method FindEol(s: string) returns (eol: nat)
    ensures eol <= |s| && (eol < |s| ==> s[eol] == '\n' || s[eol] == '\0')
    ensures '\0' !in s ==> eol == FirstNewline(s)
  {
    eol := 0;
    while eol < |s| && s[eol] != '\n'
      invariant eol <= |s| && '\n' !in s[..eol]
    {
      assert s[..eol + 1] == s[..eol] + [s[eol]];
      eol := eol + 1;
    }
    if eol < |s| {
      OneEnd(s, eol);
      return;
    }
    assert s[..eol] == s;
    OneEnd(s, eol);
    eol := 0;
    while eol < |s| && s[eol] != '\0'
      invariant eol <= |s| && '\0' !in s[..eol]
    {
      assert s[..eol + 1] == s[..eol] + [s[eol]];
      eol := eol + 1;
    }
  }

  /** struct archive_read_buffer: the line under construction, and the unread part of the last block. */
  class ReadBuffer {
    var line: array?<char>
    var lineOffset: nat
    var maxLineSize: nat
    var realLineSize: nat
    var block: string
    var blockOffset: nat
    var ret: int

    constructor (max: nat)
      ensures Valid() && line == null && block == "" && blockOffset == 0 && ret == ARCHIVE_OK && maxLineSize == max
    {
      line, lineOffset, maxLineSize, realLineSize := null, 0, max, 0;
      block, blockOffset, ret := "", 0, ARCHIVE_OK;
    }

    ghost predicate Valid()
      reads this, line
    {
      && blockOffset <= |block| && '\0' !in block && ret in {ARCHIVE_OK, ARCHIVE_EOF}
      && (if line == null then lineOffset == 0 else lineOffset < line.Length)
      && (ret == ARCHIVE_EOF ==> block == "")
    }

    /** The unread part of the block. */
    ghost function Left(): (s: string)
      reads this
      requires blockOffset <= |block|
    {
      block[blockOffset..]
    }

    /** What has been copied into the line so far. */
    ghost function Taken(): (s: string)
      reads this, line
      requires if line == null then lineOffset == 0 else lineOffset < line.Length
    {
      if line == null then "" else line[..lineOffset]
    }

    /** Makes the line buffer large enough for `more` characters and a terminator; fails if a line that did
        not come with the first block would be too long. */
    method MakeRoom(more: nat) returns (ok: bool)
      requires Valid() && more <= |block|
      modifies this`line, this`lineOffset
      ensures Valid() && Taken() == old(Taken()) && lineOffset == old(lineOffset)
      ensures ok ==> line != null && lineOffset + more < line.Length
      ensures ok ==> line == old(line) || fresh(line)
      ensures !ok ==> lineOffset + more + 1 > maxLineSize && line == old(line)
    {
      ok := true;
      if line == null {
        line := new char[|block| + 1](_ => '\0');
        lineOffset := 0;
        assert line[..0] == "";
      } else {
        var needed := lineOffset + more + 1;
        if needed > maxLineSize {
          return false;
        }
        if needed > line.Length {
          ghost var taken := line[..lineOffset];
          var newLine := new char[needed](_ => '\0');
          var size := line.Length;
          forall i | 0 <= i < size { newLine[i] := line[i]; }
          assert newLine[..lineOffset] == taken;
          line := newLine;
        }
      }
    }

    /** Copies `len` characters of the block to the end of the line. */
    method Copy(len: nat)
      requires Valid() && line != null && blockOffset + len <= |block| && lineOffset + len < line.Length
      modifies this`lineOffset, this`blockOffset, line
      ensures Valid() && Taken() == old(Taken()) + old(Left())[..len] && Left() == old(Left())[len..]
      ensures lineOffset == old(lineOffset) + len && blockOffset == old(blockOffset) + len
    {
      ghost var before := line[..];
      var buffer, to, from := line, lineOffset, blockOffset;
      forall i | to <= i < to + len { buffer[i] := block[from + i - to]; }
      Copied(before, line[..], block, to, from, len);
      lineOffset, blockOffset := lineOffset + len, blockOffset + len;
    }

    /** Terminates the line. */
    method Terminate()
      requires Valid() && line != null
      modifies this`realLineSize, line
      ensures Valid() && Taken() == old(Taken()) && realLineSize == lineOffset && line[lineOffset] == '\0'
    {
      ghost var taken := Taken();
      line[lineOffset] := '\0';
      realLineSize := lineOffset;
      assert line[..lineOffset] == taken;
    }

    /** Gets the next block when the last one is used up. */
    method Fill(a: Archive) returns (ok: bool)
      requires Valid() && a.Valid() && Left() == "" && ret == ARCHIVE_OK
      modifies this`ret, this`block, this`blockOffset, a
      ensures a.Valid() && (!ok ==> a.broken && ret < 0)
      ensures ok ==>
        Valid() && Taken() == old(Taken()) && Left() + a.Rest() == old(a.Rest()) && a.broken == old(a.broken)
      ensures ok ==>
        if ret == ARCHIVE_EOF then Left() == "" && a.Rest() == "" else Left() != "" && a.next == old(a.next) + 1
    {
      ret, block := a.ReadBlock();
      blockOffset := 0;
      ok := ret >= 0;
    }

    /** cleanup: the buffer is given up. */
    method Reset() returns (r: int)
      modifies this
      ensures r == old(ret) && line == null && block == "" && blockOffset == 0 && lineOffset == 0 && ret == ARCHIVE_OK
    {
      r := ret;
      line, lineOffset, maxLineSize, realLineSize := null, 0, 0, 0;
      block, blockOffset, ret := "", 0, ARCHIVE_OK;
    }

    /** Copies the unread part of the block up to the end of the line, or all of it; `done` when the line is
        complete, because it ends here or nothing was left. */
    method TakeBlock(ghost k: nat) returns (ok: bool, done: bool)
      requires Valid() && EndsAt(Left(), k)
      modifies this`line, this`lineOffset, this`blockOffset, this`realLineSize, line
      ensures Valid() && (line == old(line) || fresh(line))
      ensures !ok ==> |old(Taken())| + k + 1 > maxLineSize
      ensures ok ==> line != null && Taken() == old(Taken()) + old(Left())[..k]
      ensures ok && k < |old(Left())| ==> done && Left() == old(Left())[k + 1..]
      ensures ok && k == |old(Left())| ==> (done <==> k == 0) && Left() == ""
      ensures ok && done ==> realLineSize == lineOffset && line[lineOffset] == '\0'
    {
      var eol := FindEol(block[blockOffset..]);
      OneEnd(Left(), k);
      ok := MakeRoom(eol);
      done := false;
      if !ok {
        return;
      }
      var atEol := blockOffset + eol < |block|;
      Copy(eol);
      if atEol {
        blockOffset := blockOffset + 1;
        Terminate();
        done := true;
      } else if eol == 0 {
        Terminate();
        done := true;
      }
    }

    ghost predicate Ended()
      reads this
    {
      ret == ARCHIVE_EOF
    }

    /** t is what is left to be read, with what has been copied already in front; rest is still in the archive. */
    ghost predicate ReadingOn(rest: string, t: string)
      reads this, line
    {
      Valid() && '\n' !in Taken() && t == Taken() + Left() + rest && (ret == ARCHIVE_EOF ==> rest == "")
    }

    ghost predicate Reading(a: Archive, t: string)
      reads this, line, a
    {
      a.Valid() && ReadingOn(a.Rest(), t)
    }

    /** Takes what the block has; `t` is what was to be read. */
    method Step(ghost rest: string, ghost t: string) returns (ok: bool, done: bool)
      requires ReadingOn(rest, t) && (Left() == "" ==> ret == ARCHIVE_EOF)
      modifies this`line, this`lineOffset, this`blockOffset, this`realLineSize, line
      ensures Valid() && (line == old(line) || fresh(line))
      ensures !ok ==> FirstNewline(t) + 1 > maxLineSize
      ensures ok && !done ==> ReadingOn(rest, t) && Left() == "" && old(Left()) != ""
      ensures ok && done ==> LineOn(rest, t)
    {
      ghost var taken, left := Taken(), Left();
      ghost var k := FirstNewline(left);
      Within(taken, left, rest, t, k);
      ok, done := TakeBlock(k);
      if ok {
        if k < |left| { LineEnds(taken, left, rest, t, k, Taken(), Left()); } else {
          LineGoesOn(taken, left, rest, t, Taken(), Left());
        }
      }
    }

    /** The line is the first one of t, and the rest of t is left. */
    ghost predicate LineOn(rest: string, t: string)
      reads this, line
    {
      && Valid() && line != null && realLineSize < line.Length && line[..realLineSize] == t[..FirstNewline(t)]
      && if FirstNewline(t) < |t| then !Ended() && Left() + rest == t[FirstNewline(t) + 1..]
         else Ended() && Left() + rest == ""
    }

    ghost predicate LineOf(a: Archive, t: string)
      reads this, line, a
    {
      a.Valid() && LineOn(a.Rest(), t)
    }

    /** What a call promises of the text t that was left, or None if the end had been reached. */
    ghost predicate Answers(a: Archive, t: Option<string>, r: int, max: nat)
      reads this, line, a
    {
      && Valid() && a.Valid() && (r == ARCHIVE_EOF <==> t == None)
      && (r == ARCHIVE_OK ==> t.Some? && maxLineSize == max && LineOf(a, t.value))
      && (r != ARCHIVE_OK && r != ARCHIVE_EOF ==> a.broken || (t.Some? && FirstNewline(t.value) + 1 > max))
    }

    /** What is left to be read. */
    ghost function Text(a: Archive): (t: Option<string>)
      reads this, line, a
      requires Valid() && a.Valid()
    {
      if Ended() then None else Some(Left() + a.Rest())
    }

    /** Makes sure that there is something to read, unless the end has been reached. */
    method Ready(a: Archive, ghost t: string) returns (ok: bool)
      requires Reading(a, t) && !Ended()
      modifies this`ret, this`block, this`blockOffset, a
      ensures a.Valid() && (!ok ==> a.broken && ret < 0)
      ensures ok ==> Reading(a, t) && (Left() == "" ==> Ended())
      ensures ok ==> a.next > old(a.next) || Ended() || (a.next == old(a.next) && Left() == old(Left()))
    {
      ok := true;
      if blockOffset == |block| {
        ok := Fill(a);
      }
    }

    /** One round of the loop; `more` when the line goes on in the next block. */
    method Round(a: Archive, ghost t: string) returns (more: bool, r: int)
      requires Reading(a, t) && !Ended()
      modifies this, line, a
      ensures line == old(line) || line == null || fresh(line)
      ensures more ==> Reading(a, t) && !Ended() && maxLineSize == old(maxLineSize)
      ensures more ==> a.next > old(a.next) || (a.next == old(a.next) && |Left()| < |old(Left())|)
      ensures !more ==> Answers(a, Some(t), r, old(maxLineSize))
    {
      more, r := false, ARCHIVE_OK;
      var ok := Ready(a, t);
      if !ok {
        r := Reset();
        return;
      }
      var done;
      ok, done := Step(a.Rest(), t);
      if !ok {
        r := Reset();
        r := -ERANGE;
        return;
      }
      more := !done;
    }

    /** _alpm_archive_fgets: the next line, whatever blocks it comes in; after the last one, the end. */
    method Fgets(a: Archive) returns (r: int)
      requires Valid() && a.Valid() && (Ended() ==> a.Rest() == "")
      modifies this, line, a
      ensures line == old(line) || line == null || fresh(line)
      ensures Answers(a, old(Text(a)), r, old(maxLineSize))
    {
      lineOffset, r := 0, ARCHIVE_OK;
      ghost var t := Left() + a.Rest();
      assert Taken() == "" && t == Taken() + Left() + a.Rest();
      if ret == ARCHIVE_EOF {
        r := Reset();
        return;
      }
      var more := true;
      while more
        invariant if more then Reading(a, t) && !Ended() && maxLineSize == old(maxLineSize)
          else Answers(a, Some(t), r, old(maxLineSize))
        invariant line == old(line) || line == null || fresh(line)
        decreases more, |a.blocks| - a.next, if more then |Left()| else 0
      {
        more, r := Round(a, t);
      }
    }
  }

  lemma Copied(before: string, after: string, block: string, to: nat, from: nat, len: nat)
    requires |before| == |after| && to + len <= |after| && from + len <= |block|
    requires forall i :: 0 <= i < to ==> after[i] == before[i]
    requires forall i :: to <= i < to + len ==> after[i] == block[from + i - to]
    ensures after[..to + len] == before[..to] + block[from..][..len] && block[from..][len..] == block[from + len..]
  {}

  /** The first line is at least as long as what of it is in the block. */
  lemma Within(taken: string, left: string, rest: string, t: string, k: nat)
    requires '\n' !in taken && t == taken + left + rest && EndsAt(left, k)
    ensures FirstNewline(t) >= |taken| + k
  {
    var f := FirstNewline(t);
    assert forall i :: 0 <= i < |taken| + k ==> t[i] == (taken + left[..k])[i];
  }

  /** The first line of taken + left + rest ends in the block. */
  lemma LineEnds(taken: string, left: string, rest: string, t: string, k: nat, taken': string, left': string)
    requires '\n' !in taken && t == taken + left + rest && EndsAt(left, k) && k < |left|
    requires taken' == taken + left[..k] && left' == left[k + 1..]
    ensures FirstNewline(t) < |t| && t[..FirstNewline(t)] == taken' && t[FirstNewline(t) + 1..] == left' + rest
  {
    var m := |taken| + k;
    assert t[..m] == taken + left[..k] && t[m] == left[k];
    OneEnd(t, m);
    assert t[m + 1..] == left[k + 1..] + rest;
  }

  /** It does not end in the block. */
  lemma LineGoesOn(taken: string, left: string, rest: string, t: string, taken': string, left': string)
    requires '\n' !in taken && t == taken + left + rest && EndsAt(left, |left|) && taken' == taken + left[..|left|]
    requires left' == ""
    ensures '\n' !in taken' && t == taken' + left' + rest
    ensures rest == "" ==> FirstNewline(t) == |t| && t[..FirstNewline(t)] == taken' && left' + rest == ""
  {
    assert left[..|left|] == left;
    assert t == (taken + left) + "" + rest;
    if rest == "" {
      assert t == taken + left && t[..|t|] == t;
      OneEnd(t, |t|);
    }
  }

  // ---------- reading everything ----------

  lemma SplitStep(done: seq<string>, t: string)
    ensures FirstNewline(t) == |t| ==> done + Split(t) == done + [t[..FirstNewline(t)]]
    ensures FirstNewline(t) < |t| ==>
      done + Split(t) == (done + [t[..FirstNewline(t)]]) + Split(t[FirstNewline(t) + 1..])
  {
    assert t[..|t|] == t;
  }

  ghost predicate TooLong(lines: seq<string>, max: nat) {
    exists k :: 0 <= k < |lines| && |lines[k]| + 1 > max
  }

  /** The lines still to come, for the text that is left. */
  ghost function Coming(left: Option<string>): (lines: seq<string>) {
    if left == None then [] else Split(left.value)
  }

  lemma FirstTooLong(done: seq<string>, t: string, max: nat)
    requires FirstNewline(t) + 1 > max
    ensures TooLong(done + Split(t), max)
  {
    SplitStep(done, t);
    assert (done + Split(t))[|done|] == t[..FirstNewline(t)];
  }

  /** The lines read so far and those to come are the lines of the text. */
  ghost predicate Halfway(lines: seq<string>, left: Option<string>, text: string) {
    lines + Coming(left) == Split(text)
  }

  lemma OneMoreLine(lines: seq<string>, t: string, text: string) returns (left: Option<string>)
    requires Halfway(lines, Some(t), text)
    ensures left == if FirstNewline(t) == |t| then None else Some(t[FirstNewline(t) + 1..])
    ensures Halfway(lines + [t[..FirstNewline(t)]], left, text)
  {
    SplitStep(lines, t);
    left := if FirstNewline(t) == |t| then None else Some(t[FirstNewline(t) + 1..]);
  }

  /** One more line, or the end of them. */
  method NextLine(a: Archive, b: ReadBuffer, ghost lines: seq<string>, ghost text: string, ghost max: nat)
    returns (r: int, line: string)
    requires b.Valid() && a.Valid() && (b.Ended() ==> a.Rest() == "") && b.maxLineSize == max
    requires Halfway(lines, b.Text(a), text)
    modifies b, b.line, a
    ensures b.Valid() && a.Valid() && (b.line == old(b.line) || b.line == null || fresh(b.line))
    ensures r == ARCHIVE_OK ==>
      && (b.Ended() ==> a.Rest() == "") && b.maxLineSize == max && Halfway(lines + [line], b.Text(a), text)
      && old(b.Text(a)).Some? && (b.Text(a).Some? ==> |b.Text(a).value| < |old(b.Text(a)).value|)
    ensures r == ARCHIVE_EOF ==> lines == Split(text)
    ensures r != ARCHIVE_OK && r != ARCHIVE_EOF ==> a.broken || TooLong(Split(text), max)
  {
    ghost var t := b.Text(a);
    line := "";
    r := b.Fgets(a);
    if r == ARCHIVE_OK {
      line := b.line[..b.realLineSize];
      ghost var left := OneMoreLine(lines, t.value, text);
    } else if r != ARCHIVE_EOF && t.Some? && FirstNewline(t.value) + 1 > max {
      FirstTooLong(lines, t.value, max);
    }
  }

  /** Reads an entry to its end: the lines are those of the whole text, however it was cut into blocks,
      unless the archive fails or a line is too long. */
  method ReadAll(blocks: seq<string>, fails: nat -> bool, max: nat) returns (lines: seq<string>, r: int)
    requires forall k :: 0 <= k < |blocks| ==> blocks[k] != "" && '\0' !in blocks[k]
    ensures r == ARCHIVE_EOF ==> lines == Split(Concat(blocks))
    ensures r != ARCHIVE_EOF ==>
      (exists n :: 0 <= n <= |blocks| && fails(n)) || TooLong(Split(Concat(blocks)), max)
  {
    var a := new Archive(blocks, fails);
    var b := new ReadBuffer(max);
    ghost var text := Concat(blocks);
    assert a.blocks[0..] == blocks && b.Left() + a.Rest() == text;
    lines, r := [], ARCHIVE_OK;
    while r == ARCHIVE_OK
      invariant b.Valid() && a.Valid() && fresh(a) && fresh(b) && (b.line != null ==> fresh(b.line))
      invariant r == ARCHIVE_OK ==>
        (b.Ended() ==> a.Rest() == "") && b.maxLineSize == max && Halfway(lines, b.Text(a), text)
      invariant r == ARCHIVE_EOF ==> lines == Split(text)
      invariant r != ARCHIVE_OK && r != ARCHIVE_EOF ==> a.broken || TooLong(Split(text), max)
      decreases r == ARCHIVE_OK, b.Text(a).Some?, if b.Text(a).Some? then |b.Text(a).value| else 0
    {
      var line;
      r, line := NextLine(a, b, lines, text, max);
      if r == ARCHIVE_OK {
        lines := lines + [line];
      }
    }
  }
}
