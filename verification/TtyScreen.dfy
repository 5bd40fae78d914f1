/** The terminal's character grid (kernel/src/dev/dev_tty.c): what tty_write does to the text,
    and why drawing only the cells that are marked dirty shows all of it. */
module TtyScreen {
  import opened Arith
  import opened Bits

  const NEWLINE := 10
  const RETURN := 13
  const BACKSPACE := 8
  const CURSOR := 0xdb

  // --------------------------------------------------------------------- the text

  datatype Text = Text(cells: seq<int>, cursor: int)

  function LineStart(i: int, columns: int): int
    requires columns > 0
  {
    i - i % columns
  }

  ghost predicate AreBytes(s: seq<int>) { forall j {:trigger s[j]} :: 0 <= j < |s| ==> 0 <= s[j] < 256 }

  ghost function Blank(n: nat): seq<int> { seq(n, _ => 0) }

  // The cursor at the end of the grid: all lines move up and the last one is empty.
  ghost function Wrap(t: Text, columns: int): Text
    requires 0 < columns <= |t.cells|
  {
    if t.cursor == |t.cells| then Text(t.cells[columns..] + Blank(columns), t.cursor - columns) else t
  }

  lemma WrapKeepsBytes(t: Text, columns: int)
    requires 0 < columns <= |t.cells| && AreBytes(t.cells)
    ensures AreBytes(Wrap(t, columns).cells)
  {}

  ghost predicate Inside(t: Text, columns: int, lines: int) {
    columns > 0 && lines > 0 && |t.cells| == lines * columns >= 2 && 0 <= t.cursor < |t.cells|
  }

  // The text after one character.
  ghost function Put(t: Text, columns: int, lines: int, ch: int): (r: Text)
    requires Inside(t, columns, lines)
    ensures Inside(r, columns, lines)
  {
    LineFits(t.cursor, columns, lines);
    if ch == RETURN then t.(cursor := LineStart(t.cursor, columns))
    else if ch == BACKSPACE then
      if t.cursor > 0 then Text(t.cells[t.cursor - 1 := 0], t.cursor - 1) else t
    else if ch == NEWLINE then Wrap(t.(cursor := LineStart(t.cursor, columns) + columns), columns)
    else Wrap(Text(t.cells[t.cursor := ch], t.cursor + 1), columns)
  }

  ghost function PutAll(t: Text, columns: int, lines: int, s: seq<int>): (r: Text)
    requires Inside(t, columns, lines)
    ensures Inside(r, columns, lines)
  {
    if s == [] then t else Put(PutAll(t, columns, lines, s[..|s| - 1]), columns, lines, s[|s| - 1])
  }

  // A line lies in the grid.
  lemma LineFits(i: int, columns: int, lines: int)
    requires columns > 0 && 0 <= i < lines * columns
    ensures 0 <= LineStart(i, columns) <= i < LineStart(i, columns) + columns <= lines * columns
    ensures lines > 0 && columns <= lines * columns
  {
    var y, x := i / columns, i % columns;
    assert i == columns * y + x;
    RowBound(i, columns, lines, y, x);
  }

  lemma StartOfLine(i: int, columns: int)
    requires columns > 0 && i >= 0
    ensures var start := LineStart(i, columns);
      start >= 0 && LineStart(start, columns) == start && LineStart(start + columns, columns) == start + columns
  {
    var y := i / columns;
    assert i == columns * y + i % columns;
    DivUnique(columns * y, columns, y, 0);
    Dist(y, 1, columns);
    DivUnique(columns * y + columns, columns, y + 1, 0);
    MulAtLeast(columns, y);
  }

  lemma RowBound(i: int, columns: int, lines: int, y: int, x: int)
    requires 0 <= i < lines * columns && i == columns * y + x && 0 <= x < columns
    ensures 0 <= columns * y && columns * y + columns <= lines * columns && columns <= lines * columns && 0 <= y < lines
  {
    if y < 0 { MulAtLeast(columns, y); }
    if y >= lines { Product(lines, y, columns); }
    Product(y + 1, lines, columns);
    Dist(y, 1, columns);
    Product(1, lines, columns);
  }

  lemma Product(a: int, b: int, c: int)
    requires a <= b && c >= 0
    ensures a * c <= b * c == c * b
  {}

  // ------------------------------------------------- what the characters do to the text

  // Rows and columns of the grid.
  function CellAt(y: int, x: int, columns: int): int { y * columns + x }

  ghost predicate OnGrid(y: int, x: int, columns: int, lines: int) { 0 <= y < lines && 0 <= x < columns }

  lemma CellInside(y: int, x: int, columns: int, lines: int)
    requires OnGrid(y, x, columns, lines)
    ensures 0 <= CellAt(y, x, columns) < lines * columns
    ensures y + 1 < lines ==> CellAt(y + 1, x, columns) == CellAt(y, x, columns) + columns < lines * columns
    ensures y + 1 == lines ==> CellAt(y, x, columns) >= lines * columns - columns
  {
    Product(y + 1, lines, columns);
    Product(y, y + 1, columns);
    Dist(y, 1, columns);
    MulMono(0, y, columns);
    if y + 1 < lines { Product(y + 2, lines, columns); Dist(y + 1, 1, columns); }
  }

  lemma CellRow(c: int, y: int, x: int, columns: int)
    requires c == CellAt(y, x, columns) && 0 <= x < columns
    ensures c / columns == y && c % columns == x
  {
    Commute(y, columns);
    DivUnique(c, columns, y, x);
  }

  // Backspace clears the cell in front of the cursor and moves onto it; at the start it does nothing.
  lemma BackspaceLaw(t: Text, columns: int, lines: int)
    requires Inside(t, columns, lines)
    ensures var r := Put(t, columns, lines, BACKSPACE);
      && |r.cells| == |t.cells| && (t.cursor == 0 ==> r == t)
      && (t.cursor > 0 ==>
            && r.cursor == t.cursor - 1 && r.cells[r.cursor] == 0
            && forall j :: 0 <= j < |t.cells| && j != r.cursor ==> r.cells[j] == t.cells[j])
  {}

  // Any other character goes under the cursor, which moves on by one; at the end of the grid all
  // lines then move up.
  lemma PrintableLaw(t: Text, columns: int, lines: int, ch: int)
    requires Inside(t, columns, lines) && ch !in {RETURN, BACKSPACE, NEWLINE}
    ensures var r, n := Put(t, columns, lines, ch), |t.cells|;
      && |r.cells| == n
      && (t.cursor + 1 < n ==>
            && r.cursor == t.cursor + 1 && r.cells[t.cursor] == ch
            && forall j :: 0 <= j < n && j != t.cursor ==> r.cells[j] == t.cells[j])
      && (t.cursor + 1 == n ==>
            && r.cursor == n - columns && (lines > 1 ==> r.cells[t.cursor - columns] == ch)
            && (forall j :: 0 <= j < n - columns && j != t.cursor - columns ==> r.cells[j] == t.cells[j + columns])
            && forall j :: n - columns <= j < n ==> r.cells[j] == 0)
  {
    LineFits(t.cursor, columns, lines);
    if lines > 1 { Product(2, lines, columns); }
  }

  // On a blank cell that is not the last one, backspace undoes it.
  lemma BackspaceUndoes(t: Text, columns: int, lines: int, ch: int)
    requires Inside(t, columns, lines) && ch !in {RETURN, BACKSPACE, NEWLINE}
    requires t.cursor + 1 < |t.cells| && t.cells[t.cursor] == 0
    ensures Put(Put(t, columns, lines, ch), columns, lines, BACKSPACE) == t
  {
    var s := Put(t, columns, lines, ch);
    PrintableLaw(t, columns, lines, ch);
    BackspaceLaw(s, columns, lines);
    assert Put(s, columns, lines, BACKSPACE).cells == t.cells;
  }

  // Return goes to the first column of the row, and changes no cell.
  lemma ReturnLaw(t: Text, columns: int, lines: int)
    requires Inside(t, columns, lines)
    ensures var r := Put(t, columns, lines, RETURN);
      r.cells == t.cells && r.cursor == CellAt(t.cursor / columns, 0, columns)
  {
    Commute(t.cursor / columns, columns);
  }

  // Newline goes to the first column of the next row; in the last row all lines move up instead.
  lemma NewlineLaw(t: Text, columns: int, lines: int, y: int, x: int)
    requires Inside(t, columns, lines) && OnGrid(y, x, columns, lines) && t.cursor == CellAt(y, x, columns)
    ensures var r, n := Put(t, columns, lines, NEWLINE), |t.cells|;
      && |r.cells| == n
      && (y + 1 < lines ==> r.cells == t.cells && r.cursor == CellAt(y + 1, 0, columns))
      && (y + 1 == lines ==>
            && r.cursor == CellAt(y, 0, columns)
            && (forall j :: 0 <= j < n - columns ==> r.cells[j] == t.cells[j + columns])
            && forall j :: n - columns <= j < n ==> r.cells[j] == 0)
  {
    CellRow(t.cursor, y, x, columns);
    CellInside(y, 0, columns, lines);
    Dist(y, 1, columns);
    assert LineStart(t.cursor, columns) == CellAt(y, 0, columns);
    LineFits(t.cursor, columns, lines);
  }

  // When lines move up, row y + 1 becomes row y and the last row is blank.
  lemma ScrollLaw(t: Text, columns: int, lines: int, y: int, x: int)
    requires columns > 0 && |t.cells| == lines * columns && t.cursor == |t.cells| && OnGrid(y, x, columns, lines)
    ensures columns <= |t.cells| && 0 <= CellAt(y, x, columns) < |Wrap(t, columns).cells| == |t.cells|
    ensures y + 1 < lines ==> CellAt(y, x, columns) < CellAt(y + 1, x, columns) < |t.cells|
    ensures y + 1 < lines ==> Wrap(t, columns).cells[CellAt(y, x, columns)] == t.cells[CellAt(y + 1, x, columns)]
    ensures y + 1 == lines ==> Wrap(t, columns).cells[CellAt(y, x, columns)] == 0
    ensures Wrap(t, columns).cursor == t.cursor - columns
  {
    CellInside(y, x, columns, lines);
    Product(1, lines, columns);
  }

  // Writing two texts one after the other is writing them as one.
  lemma {:induction false} PutAllJoins(t: Text, columns: int, lines: int, a: seq<int>, b: seq<int>)
    requires Inside(t, columns, lines)
    ensures PutAll(t, columns, lines, a + b) == PutAll(PutAll(t, columns, lines, a), columns, lines, b)
    decreases |b|
  {
    if b == [] {
      assert a + b == a;
    } else {
      assert (a + b)[..|a + b| - 1] == a + b[..|b| - 1];
      PutAllJoins(t, columns, lines, a, b[..|b| - 1]);
    }
  }

  // Text without control characters that stays in front of the last cell is put down as it is.
  lemma {:induction false} PlainText(t: Text, columns: int, lines: int, s: seq<int>)
    requires Inside(t, columns, lines) && t.cursor + |s| < |t.cells|
    requires forall i {:trigger s[i]} :: 0 <= i < |s| ==> s[i] !in {RETURN, BACKSPACE, NEWLINE}
    ensures PutAll(t, columns, lines, s)
      == Text(t.cells[..t.cursor] + s + t.cells[t.cursor + |s|..], t.cursor + |s|)
  {
    if s == [] {
      assert t.cells == t.cells[..t.cursor] + [] + t.cells[t.cursor..];
    } else {
      var n := |s| - 1;
      PlainText(t, columns, lines, s[..n]);
      var u := PutAll(t, columns, lines, s[..n]);
      PrintableLaw(u, columns, lines, s[n]);
      var r := PutAll(t, columns, lines, s);
      assert r.cells == t.cells[..t.cursor] + s + t.cells[t.cursor + |s|..];
    }
  }

  // ------------------------------------------------------------------ the frame buffer

  datatype Sprite = Sprite(display: int, x: int, y: int, texture: int)

  // Position of a tile on the screen to the texture shown there.
  type Frame = map<(int, int), int>

  // fb_write (kernel/src/dev/dev_video.c) draws the sprites of the current display and drops all
  // others.
  ghost function Draw(f: Frame, s: seq<Sprite>, current: int): Frame {
    if s == [] then f
    else
      var last, before := s[|s| - 1], Draw(f, s[..|s| - 1], current);
      if last.display == current && last.texture > 0 then before[(last.x, last.y) := last.texture] else before
  }

  // The one physical screen, and the variable show_cursor that all terminals share.
  class Display {
    var frame: Frame
    var current: int
    var showCursor: bool

    constructor ()
      ensures current == 0 && showCursor && frame == map[]
    {
      frame, current, showCursor := map[], 0, true;
    }
  }

  // A character takes two tiles.
  ghost predicate Shows(f: Frame, columns: int, j: int, draw: int)
    requires columns > 0
  {
    var x, y := j % columns * 8, j / columns * 16;
    (x, y) in f && f[(x, y)] == draw * 2 + 1 && (x, y + 8) in f && f[(x, y + 8)] == draw * 2 + 2
  }

  lemma SameCell(i: int, j: int, columns: int)
    requires columns > 0 && i % columns == j % columns && i / columns == j / columns
    ensures i == j
  {
    assert i == columns * (i / columns) + i % columns;
    MulEq(columns, columns, i / columns, j / columns);
  }

  ghost function Cell(f: Frame, columns: int, j: int, draw: int): Frame
    requires columns > 0
  {
    var x, y := j % columns * 8, j / columns * 16;
    f[(x, y) := draw * 2 + 1][(x, y + 8) := draw * 2 + 2]
  }

  // Drawing one cell shows it and disturbs no other.
  lemma CellAlone(f: Frame, columns: int, j: int, draw: int, i: int, other: int)
    requires columns > 0
    ensures Shows(Cell(f, columns, j, draw), columns, j, draw)
    ensures i != j ==> (Shows(Cell(f, columns, j, draw), columns, i, other) <==> Shows(f, columns, i, other))
  {
    if i % columns == j % columns && i / columns == j / columns { SameCell(i, j, columns); }
  }

  // ----------------------------------------------------------------------- the driver

  class Screen {
    const fb: Display
    const display: int      // its number; only that of fb.current is on the screen
    const lines: int
    const columns: int
    const buf: array<int>
    const dirty: array<bool>
    const spBuf: array<Sprite>
    var cursor: int         // as an index into buf

    // tty_init, before the welcome text
    constructor (fb: Display, display: int, lines: int, columns: int)
      requires columns > 0 && lines > 0 && lines * columns >= 2
      ensures this.fb == fb && this.display == display && this.lines == lines && this.columns == columns
      ensures Ready() && Content() == Text(Blank(lines * columns), 0)
      ensures fresh(buf) && fresh(dirty) && fresh(spBuf) && forall j :: 0 <= j < dirty.Length ==> !dirty[j]
    {
      this.fb, this.display, this.lines, this.columns := fb, display, lines, columns;
      var size := lines * columns;
      buf := new int[size](_ => 0);
      dirty := new bool[size](_ => false);
      spBuf := new Sprite[size * 2](_ => Sprite(0, 0, 0, 0));
      cursor := 0;
      new;
      assert buf[..] == Blank(lines * columns);
    }

    ghost predicate Sized() {
      && columns > 0 && lines > 0 && buf.Length == dirty.Length == lines * columns >= 2
      && spBuf.Length == 2 * buf.Length
    }

    predicate IsShown()
      reads fb
    {
      fb.current == display
    }

    ghost function Content(): Text
      reads this, buf
    {
      Text(buf[..], cursor)
    }

    // What a full redraw puts into cell j.
    ghost function Shown(j: int): int
      requires 0 <= j < buf.Length
      reads `cursor, fb`showCursor, buf
    {
      if j == cursor && fb.showCursor then CURSOR else buf[j]
    }

    // Characters are bytes.
    ghost predicate Bytes()
      reads buf
    {
      AreBytes(buf[..])
    }

    ghost predicate CellOk(j: int)
      requires Sized() && 0 <= j < buf.Length
      reads `cursor, fb, buf
    {
      Shows(fb.frame, columns, j, Shown(j))
    }

    ghost predicate Ready()
      reads this, buf
    {
      Sized() && 0 <= cursor < buf.Length && Bytes()
    }

    // On the shown terminal a clean cell is up to date; of a hidden one nothing is on the screen.
    ghost predicate Valid()
      reads this, fb, buf, dirty
    {
      Ready() && (IsShown() ==> forall j {:trigger dirty[j]} :: 0 <= j < buf.Length && !dirty[j] ==> CellOk(j))
    }

    // The screen is as after drawing every cell.
    ghost predicate Redrawn()
      requires Sized()
      reads `cursor, fb, buf
    {
      forall j {:trigger CellOk(j)} :: 0 <= j < buf.Length ==> CellOk(j)
    }

    // The tiles of the screen then are those of the text, with the cursor over it.
    lemma RedrawnTiles(y: int, x: int)
      requires Ready() && Redrawn() && OnGrid(y, x, columns, lines)
      ensures 0 <= CellAt(y, x, columns) < buf.Length
      ensures var c := if CellAt(y, x, columns) == cursor && fb.showCursor then 0xdb else buf[CellAt(y, x, columns)];
        && (8 * x, 16 * y) in fb.frame && fb.frame[(8 * x, 16 * y)] == 2 * c + 1
        && (8 * x, 16 * y + 8) in fb.frame && fb.frame[(8 * x, 16 * y + 8)] == 2 * c + 2
    {
      var j := CellAt(y, x, columns);
      CellInside(y, x, columns, lines);
      CellRow(j, y, x, columns);
      assert CellOk(j);
    }

    // ------------------------------------------------------------------- marking

    method Mark(j: int)
      requires Sized() && 0 <= j < buf.Length
      modifies dirty
      ensures dirty[..] == old(dirty[..])[j := true]
    {
      dirty[j] := true;
    }

    method MarkLine(j: int)
      requires Sized() && 0 <= j < buf.Length
      modifies dirty
      ensures forall i :: 0 <= i < buf.Length ==>
        dirty[i] == (old(dirty[i]) || LineStart(j, columns) <= i < LineStart(j, columns) + columns)
    {
      LineFits(j, columns, lines);
      var x, i := j % columns, 0;
      while i < columns
        invariant 0 <= i <= columns
        invariant forall k :: 0 <= k < buf.Length ==> dirty[k] == (old(dirty[k]) || j - x <= k < j - x + i)
      {
        Mark(j - x + i);
        i := i + 1;
      }
    }

    method MarkAll()
      requires Sized()
      modifies dirty
      ensures forall k :: 0 <= k < buf.Length ==> dirty[k]
    {
      var i := 0;
      while i < buf.Length
        invariant 0 <= i <= buf.Length
        invariant forall k :: 0 <= k < i ==> dirty[k]
      {
        Mark(i);
        i := i + 1;
      }
    }

    // -------------------------------------------------------------------- text

    // tty_upd_scrollup, with memmove as a parallel assignment.
    method ScrollUp()
      requires Sized() && cursor == buf.Length
      modifies buf, dirty, `cursor
      ensures Content() == Wrap(old(Content()), columns)
    {
      var moved := MoveSize();
      forall i | 0 <= i < moved { buf[i] := buf[i + columns]; }
      forall i | 0 <= i < moved { dirty[i] := dirty[i + columns]; }
      cursor := cursor - columns;
      ClearLast();
      assert buf[..] == old(buf[..])[columns..] + Blank(columns);
    }

    // All lines but one
    method MoveSize() returns (moved: int)
      requires Sized()
      ensures 0 <= moved == buf.Length - columns
    {
      LineFits(0, columns, lines);
      Dist(lines, 1, columns);
      moved := columns * (lines - 1);
    }

    // tty_upd_scrollup's loop
    method ClearLast()
      requires Sized() && 0 <= cursor == buf.Length - columns
      modifies buf
      ensures forall k :: 0 <= k < cursor ==> buf[k] == old(buf[k])
      ensures forall k :: cursor <= k < buf.Length ==> buf[k] == 0
    {
      var i := 0;
      while i < columns
        invariant 0 <= i <= columns
        invariant forall k :: 0 <= k < cursor ==> buf[k] == old(buf[k])
        invariant forall k :: cursor <= k < cursor + i ==> buf[k] == 0
      {
        buf[cursor + i] := 0;
        i := i + 1;
      }
    }

    // A cell that is still clean shows what it showed.
    twostate lemma StillClean()
      requires old(Valid()) && fb.frame == old(fb.frame) && fb.current == old(fb.current) && Ready()
      requires forall j {:trigger dirty[j]} ::
        0 <= j < buf.Length && !dirty[j] ==> !old(dirty[j]) && Shown(j) == old(Shown(j))
      ensures Valid()
    {
      if IsShown() {
        forall j | 0 <= j < buf.Length && !dirty[j]
          ensures CellOk(j)
        {
          assert !old(dirty[j]) && old(CellOk(j));
        }
      }
    }

    method PutReturn()
      requires Valid()
      modifies dirty, `cursor
      ensures Valid() && Content() == Put(old(Content()), columns, lines, RETURN)
    {
      CarriageReturn();
      MarkLine(cursor);
      StillClean();
    }

    method PutBackspace()
      requires Valid()
      modifies buf, dirty, `cursor
      ensures Valid() && Content() == Put(old(Content()), columns, lines, BACKSPACE)
    {
      if cursor > 0 {
        cursor := cursor - 1;
        buf[cursor] := 0;
      }
      Mark(cursor);
      Mark(cursor + 1);
      StillClean();
    }

    // tty_upd_cr
    method CarriageReturn()
      requires Ready()
      modifies `cursor
      ensures cursor == LineStart(old(cursor), columns)
      ensures 0 <= cursor <= old(cursor) < cursor + columns <= buf.Length
      ensures LineStart(cursor, columns) == cursor && LineStart(cursor + columns, columns) == cursor + columns
    {
      LineFits(cursor, columns, lines);
      StartOfLine(cursor, columns);
      cursor := cursor - cursor % columns;
    }

    method PutNewline()
      requires Valid()
      modifies buf, dirty, `cursor
      ensures Valid() && Content() == Put(old(Content()), columns, lines, NEWLINE)
    {
      CarriageReturn();
      cursor := cursor + columns;
      if cursor == buf.Length {
        WrapKeepsBytes(Content(), columns);
        ScrollUp();
        MarkAll();
      } else {
        MarkLine(cursor - columns);
        MarkLine(cursor);
        StillClean();
      }
    }

    method PutPrintable(ch: int)
      requires Valid() && ch !in {RETURN, BACKSPACE, NEWLINE} && 0 <= ch < 256
      modifies buf, dirty, `cursor
      ensures Valid() && Content() == Put(old(Content()), columns, lines, ch)
    {
      LineFits(cursor, columns, lines);
      buf[cursor] := ch;
      cursor := cursor + 1;
      if cursor == buf.Length {
        WrapKeepsBytes(Content(), columns);
        ScrollUp();
        MarkAll();
      } else {
        Mark(cursor - 1);
        Mark(cursor);
        StillClean();
      }
    }

    // tty_putc
    method PutChar(ch: int)
      requires Valid() && 0 <= ch < 256
      modifies buf, dirty, `cursor
      ensures Valid() && Content() == Put(old(Content()), columns, lines, ch)
    {
      if ch == RETURN {
        PutReturn();
      } else if ch == BACKSPACE {
        PutBackspace();
      } else if ch == NEWLINE {
        PutNewline();
      } else {
        PutPrintable(ch);
      }
    }

    // ----------------------------------------------------------------- rendering

    // fb_write of n sprites, in order
    method FbWrite(n: int)
      requires 0 <= n <= spBuf.Length
      modifies fb`frame
      ensures fb.frame == Draw(old(fb.frame), spBuf[..n], fb.current)
    {
      var i := 0;
      while i < n
        invariant 0 <= i <= n && fb.frame == Draw(old(fb.frame), spBuf[..i], fb.current)
      {
        var sp := spBuf[i];
        if sp.texture > 0 && sp.display == fb.current {
          fb.frame := fb.frame[(sp.x, sp.y) := sp.texture];
        }
        i := i + 1;
        assert spBuf[..i][..i - 1] == spBuf[..i - 1];
      }
    }

    // Up to cell k the sprites put every cell right; beyond, the clean ones are right already.
    ghost predicate RightUpTo(f: Frame, k: int)
      requires Sized()
      reads `cursor, fb`showCursor, buf, dirty
    {
      forall j {:trigger Shown(j)} :: 0 <= j < buf.Length && (j < k || !dirty[j]) ==> Shows(f, columns, j, Shown(j))
    }

    lemma DrawNext(f: Frame, k: int)
      requires Sized() && 0 <= k < buf.Length && RightUpTo(f, k)
      ensures RightUpTo(if dirty[k] then Cell(f, columns, k, Shown(k)) else f, k + 1)
    {
      forall j | 0 <= j < buf.Length && (j < k + 1 || !dirty[j])
        ensures Shows(if dirty[k] then Cell(f, columns, k, Shown(k)) else f, columns, j, Shown(j))
      {
        CellAlone(f, columns, k, Shown(k), j, Shown(j));
      }
    }

    // The first n sprites, drawn on the shown terminal, put everything up to cell k right; on a
    // hidden one they draw nothing.
    ghost predicate SpritesFor(n: int, k: int)
      requires Sized()
      reads this, fb, buf, dirty, spBuf
    {
      && 0 <= n <= spBuf.Length
      && if IsShown() then RightUpTo(Draw(fb.frame, spBuf[..n], fb.current), k)
         else Draw(fb.frame, spBuf[..n], fb.current) == fb.frame
    }

    // tty_render's loop: the sprites of the dirty cells, n of them.
    method Sprites() returns (n: int)
      requires Valid()
      modifies spBuf
      ensures SpritesFor(n, buf.Length)
    {
      n := 0;
      var k, y := 0, 0;
      assert spBuf[..n] == [];
      while y < lines
        invariant 0 <= y <= lines && k == y * columns && 0 <= n <= 2 * k <= 2 * buf.Length
        invariant SpritesFor(n, k)
      {
        Product(y + 1, lines, columns);
        Dist(y, 1, columns);
        var x := 0;
        while x < columns
          invariant 0 <= x <= columns && k == y * columns + x && 0 <= n <= 2 * k <= 2 * buf.Length
          invariant SpritesFor(n, k)
        {
          n := CellSprites(x, y, k, n);
          k := k + 1;
          x := x + 1;
        }
        y := y + 1;
      }
    }

    method CellSprites(x: int, y: int, k: int, n: int) returns (n': int)
      requires Ready() && 0 <= x < columns && k == y * columns + x && 0 <= k < buf.Length && 0 <= n <= 2 * k
      requires SpritesFor(n, k)
      modifies spBuf
      ensures n <= n' <= n + 2 && SpritesFor(n', k + 1)
    {
      ghost var f := Draw(fb.frame, spBuf[..n], fb.current);
      if IsShown() { DrawNext(f, k); }
      n' := n;
      if dirty[k] {
        var draw := if k == cursor && fb.showCursor then CURSOR else buf[k];
        DivUnique(k, columns, y, x);
        spBuf[n'] := Sprite(display, x * 8, y * 16, draw * 2 + 1);
        n' := n' + 1;
        spBuf[n'] := Sprite(display, x * 8, y * 16 + 8, draw * 2 + 2);
        n' := n' + 1;
        assert spBuf[..n'][..n + 1] == spBuf[..n + 1] && spBuf[..n + 1][..n] == old(spBuf[..n]);
        assert Draw(fb.frame, spBuf[..n'], fb.current) == if IsShown() then Cell(f, columns, k, draw) else f;
      } else {
        assert spBuf[..n] == old(spBuf[..n]);
      }
    }

    // tty_render. It forgets the marks of a hidden terminal although nothing was drawn.
    method Render()
      requires Valid()
      modifies spBuf, dirty, fb`frame
      ensures Valid() && forall j :: 0 <= j < dirty.Length ==> !dirty[j]
      ensures IsShown() ==> Redrawn()
      ensures !IsShown() ==> fb.frame == old(fb.frame)
    {
      var n := Sprites();
      ghost var f := Draw(fb.frame, spBuf[..n], fb.current);
      FbWrite(n);
      if IsShown() {
        assert RightUpTo(f, buf.Length);
        forall j | 0 <= j < buf.Length
          ensures CellOk(j)
        {
          assert Shows(f, columns, j, Shown(j));
        }
      }
      forall j | 0 <= j < dirty.Length { dirty[j] := false; }
      assert IsShown() ==> forall j {:trigger CellOk(j)} :: 0 <= j < buf.Length ==> CellOk(j);
    }

    // tty_write: the text changes; if the terminal is shown, the screen shows all of the new text,
    // as a full redraw would, and otherwise the screen does not change.
    method Write(s: seq<int>)
      requires Valid() && forall i :: 0 <= i < |s| ==> 0 <= s[i] < 256
      modifies buf, dirty, spBuf, `cursor, fb`frame
      ensures Valid() && Content() == PutAll(old(Content()), columns, lines, s)
      ensures IsShown() ==> Redrawn()
      ensures !IsShown() ==> fb.frame == old(fb.frame)
    {
      var i := 0;
      while i < |s|
        invariant 0 <= i <= |s| && Valid() && fb.frame == old(fb.frame)
        invariant Content() == PutAll(old(Content()), columns, lines, s[..i])
      {
        PutChar(s[i]);
        i := i + 1;
        assert s[..i][..i - 1] == s[..i - 1];
      }
      assert s[..i] == s;
      Render();
    }

    // The terminal daemon with the shown terminal: the cursor is turned on or off and marked, and
    // an empty write draws it.
    method Blink(changed: bool)
      requires Valid() && IsShown()
      modifies buf, dirty, spBuf, `cursor, fb`frame, fb`showCursor
      ensures Valid() && IsShown() && Redrawn() && Content() == old(Content())
      ensures fb.showCursor == (!old(fb.showCursor) || changed)
    {
      fb.showCursor := !fb.showCursor || changed;
      Mark(cursor);
      StillClean();
      Write([]);
    }

    // The daemon switches to this terminal: tty_mark_all, the display's number, an empty write.
    // Whatever was on the screen and marked before, all of the text is shown.
    method SwitchTo()
      requires Ready()
      modifies buf, dirty, spBuf, `cursor, fb`frame, fb`current
      ensures Valid() && IsShown() && Redrawn() && Content() == old(Content())
    {
      MarkAll();
      fb.current := display;
      Write([]);
    }
  }

  // ----------------------------------------------------------------- two terminals

  // tty1 and tty2 on one screen.
  class Console {
    const fb: Display
    const tty: array<Screen>

    ghost predicate Wired()
      reads tty
    {
      && tty.Length == 2 && tty[0] != tty[1] && tty[0].fb == fb && tty[1].fb == fb
      && tty[0].display != tty[1].display
      && tty[0].buf != tty[1].buf && tty[0].dirty != tty[1].dirty && tty[0].spBuf != tty[1].spBuf
    }

    constructor (fb: Display, tty: array<Screen>)
      ensures this.fb == fb && this.tty == tty
    {
      this.fb, this.tty := fb, tty;
    }

    ghost function Parts(): set<object>
      reads tty
    {
      if tty.Length != 2 then {}
      else {fb, tty[0], tty[1], tty[0].buf, tty[1].buf, tty[0].dirty, tty[1].dirty, tty[0].spBuf, tty[1].spBuf}
    }

    // The screen shows all of the text of the terminal that is current, and nothing else matters.
    ghost predicate Showing()
      reads tty, Parts()
    {
      && Wired() && tty[0].Valid() && tty[1].Valid() && (tty[0].IsShown() || tty[1].IsShown())
      && (forall t {:trigger tty[t]} :: 0 <= t < 2 && tty[t].IsShown() ==> tty[t].Redrawn())
    }

    // The start of the daemon, with tty1 shown: all of it is marked and drawn.
    method Start()
      requires Wired() && tty[0].Ready() && tty[1].Ready() && tty[0].IsShown()
      modifies tty[0].dirty, tty[0].spBuf, fb`frame
      ensures Showing() && tty[0].IsShown()
    {
      tty[0].MarkAll();
      tty[0].Render();
    }

    // A write to either terminal, from any process.
    method Write(t: int, s: seq<int>)
      requires Showing() && 0 <= t < 2 && forall i :: 0 <= i < |s| ==> 0 <= s[i] < 256
      modifies tty[t], tty[t].buf, tty[t].dirty, tty[t].spBuf, fb`frame
      ensures Showing() && fb.current == old(fb.current)
      ensures tty[t].Content() == PutAll(old(tty[t].Content()), tty[t].columns, tty[t].lines, s)
      ensures tty[1 - t].Content() == old(tty[1 - t].Content())
    {
      tty[t].Write(s);
    }

    // Alt-1 and Alt-2
    method Switch(t: int)
      requires Showing() && 0 <= t < 2
      modifies tty[t], tty[t].buf, tty[t].dirty, tty[t].spBuf, fb`frame, fb`current
      ensures Showing() && tty[t].IsShown()
      ensures tty[t].Content() == old(tty[t].Content()) && tty[1 - t].Content() == old(tty[1 - t].Content())
    {
      tty[t].SwitchTo();
    }

    // The cursor of the shown terminal, on or off.
    method Blink(t: int, changed: bool)
      requires Showing() && 0 <= t < 2 && tty[t].IsShown()
      modifies tty[t], tty[t].buf, tty[t].dirty, tty[t].spBuf, fb`frame, fb`showCursor
      ensures Showing() && tty[t].Content() == old(tty[t].Content())
    {
      tty[t].Blink(changed);
    }
  }
}
