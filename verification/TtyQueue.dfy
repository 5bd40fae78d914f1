/** The terminal's line discipline (kernel/src/dev/dev_tty.c): a ring buffer that holds the
    finished lines nobody has read yet, each followed by a zero, and the line being typed. */
module TtyQueue {
  import opened Rings

  const SIZE := 1024    // TTY_COOK_BUF_SZ
  const NEWLINE := 10
  const BACKSPACE := 8

  datatype CookResult = Accepted | Refused | QueueFull

  function Prev(i: int): int { if i == 0 then SIZE - 1 else i - 1 }

  // count has room for exactly r of n characters: r is as many as count allows, or all.
  ghost predicate Taken(count: int, n: int, r: int) {
    && 0 <= r <= n && (count < 0 ==> r == 0)
    && (count >= 0 ==> r <= count && (r == count || r == n))
  }

  // The line being typed; a line ends in a newline and has no other.
  predicate Partial(s: seq<int>) { 0 !in s && NEWLINE !in s }

  predicate Finished(s: seq<int>) { |s| > 0 && s[|s| - 1] == NEWLINE && Partial(s[..|s| - 1]) }

  ghost function Encode(lines: seq<seq<int>>): seq<int> {
    if lines == [] then [] else lines[0] + [0] + Encode(lines[1..])
  }

  lemma {:induction false} EncodeLast(lines: seq<seq<int>>, line: seq<int>)
    ensures Encode(lines + [line]) == Encode(lines) + (line + [0])
  {
    if lines == [] {
      assert [line][1..] == [];
    } else {
      EncodeLast(lines[1..], line);
      assert (lines + [line])[1..] == lines[1..] + [line];
    }
  }

  // An encoding ends in a separator.
  lemma {:induction false} EncodeEnds(lines: seq<seq<int>>)
    requires lines != []
    ensures |Encode(lines)| > 0 && Encode(lines)[|Encode(lines)| - 1] == 0
  {
    if |lines| > 1 { EncodeEnds(lines[1..]); } else { assert Encode(lines[1..]) == []; }
  }

  lemma NoZero(line: seq<int>)
    requires Finished(line)
    ensures 0 !in line
  {
    assert line == line[..|line| - 1] + [NEWLINE];
  }

  lemma Parts(line: seq<int>, rest: seq<int>, s: seq<int>)
    requires s == line + [0] + rest
    ensures |s| > |line| && s[|line|] == 0 && s[|line| + 1..] == rest
    ensures forall k :: 0 <= k < |line| ==> s[k] == line[k]
  {}

  // What tty_read's loop meets first is the oldest line and its separator.
  lemma EncodeFirst(lines: seq<seq<int>>, partial: seq<int>)
    requires lines != [] && Finished(lines[0])
    ensures var s, line := Encode(lines) + partial, lines[0];
      && |s| > |line| && s[|line|] == 0 && s[|line| + 1..] == Encode(lines[1..]) + partial
      && forall k :: 0 <= k < |line| ==> s[k] == line[k] != 0
  {
    var s, line, rest := Encode(lines) + partial, lines[0], Encode(lines[1..]) + partial;
    assert s == line + [0] + rest;
    Parts(line, rest, s);
    NoZero(line);
  }

  class LineQueue {
    const buf: array<int>
    var front: int
    var rear: int
    var cooked: int             // the semaphore tty->cooked
    ghost var claimed: nat      // readers that are past sem_wait(&tty->cooked)
    ghost var lines: seq<seq<int>>
    ghost var partial: seq<int>

    ghost function Unread(): seq<int>
      reads this
    {
      Encode(lines) + partial
    }

    // The cells from f to rear hold s.
    ghost predicate Holds(f: int, s: seq<int>)
      reads this, buf
    {
      && buf.Length == SIZE && 0 <= f < SIZE && |s| < SIZE && rear == At(f, |s|, SIZE)
      && (forall k {:trigger s[k]} :: 0 <= k < |s| ==> buf[At(f, k, SIZE)] == s[k])
    }

    lemma DropCells(f: int, s: seq<int>, n: int)
      requires Holds(f, s) && 0 <= n <= |s|
      ensures Holds(At(f, n, SIZE), s[n..])
    {
      forall k | 0 <= k < |s[n..]|
        ensures buf[At(At(f, n, SIZE), k, SIZE)] == s[n..][k]
      {
        assert s[n + k] == s[n..][k];
      }
    }

    ghost predicate Valid()
      reads this, buf
    {
      && Holds(front, Unread())
      && buf[Prev(front)] == 0
      && (forall i {:trigger lines[i]} :: 0 <= i < |lines| ==> Finished(lines[i])) && Partial(partial)
      && cooked >= 0 && |lines| == cooked + claimed
    }

    // The cell before rear: the last character typed, or a separator.
    lemma LastCell()
      requires Valid()
      ensures buf[Prev(rear)] == if partial == [] then 0 else partial[|partial| - 1]
      ensures buf[Prev(rear)] != 0 <==> partial != []
      ensures partial != [] ==> Prev(rear) == At(front, |Unread()| - 1, SIZE)
    {
      var s := Unread();
      if partial != [] {
        assert s[|s| - 1] == partial[|partial| - 1];
      } else if lines != [] {
        EncodeEnds(lines);
        assert s == Encode(lines);
        assert s[|s| - 1] == 0;
      }
    }

    // tty_init leaves the cells as the allocator hands them out.
    constructor (cells: array<int>)
      requires cells.Length == SIZE
      ensures buf == cells && front == rear == 0 && lines == [] && partial == [] && cooked == claimed == 0
      ensures Valid() <==> cells[SIZE - 1] == 0
    {
      buf, front, rear, cooked := cells, 0, 0, 0;
      claimed, lines, partial := 0, [], [];
    }

    // tty_enqueue; ok is false where it panics.
    method Enqueue(ch: int, ghost s: seq<int>) returns (ok: bool)
      requires Holds(front, s) && buf[Prev(front)] == 0
      modifies buf, `rear
      ensures ok <==> |s| + 1 < SIZE
      ensures ok ==> Holds(front, s + [ch]) && buf[Prev(front)] == 0
    {
      buf[rear] := ch;
      rear := rear + 1;
      if rear == buf.Length { rear := 0; }
      if rear == front { return false; }
      buf[rear] := 0;
      return true;
    }

    // tty_pop_back: 0 if a character was removed, 1 if not. It looks at the cell before rear
    // only; front is never equal to end, because it wraps.
    method PopBack() returns (ret: int)
      requires buf.Length == SIZE && 0 <= front < SIZE && 0 <= rear < SIZE
      modifies buf, `rear
      ensures ret == if old(buf[Prev(rear)]) != 0 then 0 else 1
      ensures ret == 0 ==> rear == Prev(old(rear)) && buf[..] == old(buf[..])[rear := 0]
      ensures ret == 1 ==> rear == old(rear) && buf[..] == old(buf[..])
    {
      if front != buf.Length {
        var pos := rear;
        if pos == 0 { pos := buf.Length; }
        if buf[pos - 1] != 0 {
          rear := pos - 1;
          buf[rear] := 0;
          return 0;
        }
      }
      return 1;
    }

    // tty_cook: the effect of one typed character.
    method Cook(ch: int) returns (r: CookResult)
      requires Valid() && ch != 0
      modifies buf, this
      ensures ch == NEWLINE ==> (r == Accepted <==> |old(Unread())| + 2 < SIZE)
      ensures ch == BACKSPACE ==> (r == Accepted <==> old(partial) != [])
      ensures ch != NEWLINE && ch != BACKSPACE ==> (r == Accepted <==> |old(Unread())| + 1 < SIZE)
      ensures r == Refused ==> ch == BACKSPACE
      ensures r == QueueFull ==> ch != BACKSPACE
      ensures r != QueueFull ==> Valid() && claimed == old(claimed) && front == old(front)
      ensures r == Accepted && ch == NEWLINE ==> lines == old(lines) + [old(partial) + [ch]] && partial == []
      ensures r == Accepted && ch != NEWLINE ==> lines == old(lines)
      ensures r == Accepted && ch == BACKSPACE ==> partial == old(partial)[..|old(partial)| - 1]
      ensures r == Accepted && ch != NEWLINE && ch != BACKSPACE ==> partial == old(partial) + [ch]
      ensures r == Refused ==> lines == old(lines) && partial == old(partial)
    {
      if ch == NEWLINE {
        r := CookNewline();
      } else if ch == BACKSPACE {
        r := CookBackspace();
      } else {
        ghost var s := Unread();
        var ok := Enqueue(ch, s);
        if !ok { return QueueFull; }
        partial := partial + [ch];
        assert Unread() == s + [ch];
        r := Accepted;
      }
    }

    // tty_cook on a newline: the line is finished, and a reader may have it.
    method CookNewline() returns (r: CookResult)
      requires Valid()
      modifies buf, this
      ensures r == (if |old(Unread())| + 2 < SIZE then Accepted else QueueFull)
      ensures r == Accepted ==> Valid() && claimed == old(claimed) && front == old(front)
      ensures r == Accepted ==> lines == old(lines) + [old(partial) + [NEWLINE]] && partial == []
    {
      ghost var s := Unread();
      var ok := Enqueue(NEWLINE, s);
      if !ok { return QueueFull; }
      ok := Enqueue(0, s + [NEWLINE]);
      if !ok { return QueueFull; }
      cooked := cooked + 1;
      EncodeLast(lines, partial + [NEWLINE]);
      ghost var line := partial + [NEWLINE];
      assert line[..|line| - 1] == partial;
      lines, partial := lines + [line], [];
      assert Unread() == s + [NEWLINE] + [0];
      return Accepted;
    }

    // tty_cook on a backspace: only a character of the line being typed can go.
    method CookBackspace() returns (r: CookResult)
      requires Valid()
      modifies buf, `rear, `partial
      ensures r == if old(partial) == [] then Refused else Accepted
      ensures Valid() && partial == if old(partial) == [] then [] else old(partial)[..|old(partial)| - 1]
    {
      ghost var s := Unread();
      LastCell();
      var ret := PopBack();
      if ret != 0 { return Refused; }
      partial := partial[..|partial| - 1];
      assert Unread() == s[..|s| - 1];
      return Accepted;
    }

    // tty_read's sem_wait(&tty->cooked), at the moment when it succeeds.
    method Claim()
      requires Valid() && cooked > 0
      modifies `cooked, `claimed
      ensures Valid() && cooked == old(cooked) - 1 && claimed == old(claimed) + 1
    {
      cooked, claimed := cooked - 1, claimed + 1;
    }

    // tty_read's loop: front moves past the first zero, the characters before it go to out.
    method Scan(out: array<int>, count: int, ghost line: seq<int>) returns (nread: int)
      requires buf.Length == SIZE && 0 <= front < SIZE && |line| + 1 < SIZE && out != buf && count <= out.Length
      requires forall k :: 0 <= k < |line| ==> buf[At(front, k, SIZE)] == line[k] != 0
      requires buf[At(front, |line|, SIZE)] == 0
      modifies out, `front
      ensures front == At(old(front), |line| + 1, SIZE) && Taken(count, |line|, nread)
      ensures forall j :: 0 <= j < nread ==> out[j] == line[j]
      ensures forall j :: nread <= j < out.Length ==> out[j] == old(out[j])
    {
      nread := 0;
      ghost var f, k := front, 0;
      while true
        invariant 0 <= k <= |line| && front == At(f, k, SIZE) && Taken(count, k, nread)
        invariant forall j :: 0 <= j < nread ==> out[j] == line[j]
        invariant forall j :: nread <= j < out.Length ==> out[j] == old(out[j])
        decreases |line| - k
      {
        var ch := buf[front];
        if nread < count && ch != 0 {
          out[nread] := buf[front];
          nread := nread + 1;
        }
        front := front + 1;
        if front == buf.Length { front := 0; }
        if ch == 0 { break; }
        k := k + 1;
      }
    }

    // The rest of tty_read: the oldest line goes, its first characters to out.
    method Read(out: array<int>, count: int) returns (nread: int)
      requires Valid() && claimed > 0 && out != buf && count <= out.Length
      modifies out, this
      ensures Valid() && old(lines) != []
      ensures lines == old(lines)[1..] && partial == old(partial)
      ensures cooked == old(cooked) && claimed == old(claimed) - 1
      ensures count < 0 ==> nread == 0
      ensures count >= 0 ==> 0 <= nread <= count && (nread == count || nread == |old(lines)[0]|)
      ensures 0 <= nread <= |old(lines)[0]| && (count >= |old(lines)[0]| ==> out[..nread] == old(lines)[0])
      ensures forall j :: 0 <= j < nread ==> out[j] == old(lines)[0][j]
      ensures forall j :: nread <= j < out.Length ==> out[j] == old(out[j])
    {
      ghost var f, s, line := front, Unread(), lines[0];
      EncodeFirst(lines, partial);
      nread := Scan(out, count, line);
      DropCells(f, s, |line| + 1);
      lines, claimed := lines[1..], claimed - 1;
    }
  }
}
