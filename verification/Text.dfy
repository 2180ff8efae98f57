/** The unbounded text that a terminal's page is a window onto. */
module Text {
  import opened Bytes

  const NUM_COLS: int := 80
  const NUM_ROWS: int := 25
  const CELLS: int := 2000
  const SPACE: byte := 32

  predicate IsNewline(c: byte) {
    c == 10 || c == 13
  }

  function Spaces(n: nat): (s: seq<byte>)
    ensures |s| == n && forall k :: 0 <= k < n ==> s[k] == SPACE
  {
    seq(n, _ => SPACE)
  }

  // ---------- a page ----------

  /** A page of 25 rows of 80 characters, and its cursor. */
  datatype Screen = Screen(x: int, y: int, cells: seq<byte>)

  ghost predicate OnPage(s: Screen) {
    |s.cells| == CELLS && 0 <= s.x < NUM_COLS && 0 <= s.y < NUM_ROWS
  }

  function Scrolled(cells: seq<byte>): seq<byte>
    requires |cells| == CELLS
  {
    cells[NUM_COLS..] + Spaces(NUM_COLS)
  }

  const BLANK: Screen := Screen(0, 0, Spaces(CELLS))

  /** putc. */
  function Put(s: Screen, c: byte): Screen
    requires OnPage(s)
  {
    if IsNewline(c) then
      if s.y + 1 > NUM_ROWS - 1 then Screen(0, NUM_ROWS - 1, Scrolled(s.cells)) else Screen(0, s.y + 1, s.cells)
    else if c == 0 then s
    else
      var cells := s.cells[NUM_COLS * s.y + s.x := c];
      var x := s.x + 1;
      if s.y + x / NUM_COLS == NUM_ROWS then Screen(x % NUM_COLS, NUM_ROWS - 1, Scrolled(cells))
      else Screen(x % NUM_COLS, (s.y + x / NUM_COLS) % NUM_ROWS, cells)
  }

  /** backspace_helper, away from the top-left corner. */
  function Back(s: Screen): Screen
    requires OnPage(s) && !(s.x == 0 && s.y == 0)
  {
    var (x, y) := if s.x == 0 then (NUM_COLS - 1, s.y - 1) else (s.x - 1, s.y);
    Screen(x, y, s.cells[NUM_COLS * y + x := SPACE])
  }

  function PutAll(s: Screen, text: seq<byte>): (r: Screen)
    requires OnPage(s)
    ensures OnPage(r)
  {
    if text == [] then s else Put(PutAll(s, text[..|text| - 1]), text[|text| - 1])
  }

  // ---------- the unbounded text ----------

  /** A text of whole 80-column rows that only ever grows at the bottom, and a position in it. */
  datatype Doc = Doc(cells: seq<byte>, row: int, col: int)

  function Rows(d: Doc): int {
    |d.cells| / NUM_COLS
  }

  ghost predicate GoodDoc(d: Doc) {
    && |d.cells| % NUM_COLS == 0 && Rows(d) >= NUM_ROWS
    && 0 <= d.col < NUM_COLS && Rows(d) - NUM_ROWS <= d.row < Rows(d)
  }

  /** When the position leaves the last row, a blank row is added. */
  function Grown(cells: seq<byte>, row: int, col: int): Doc {
    if row >= |cells| / NUM_COLS then Doc(cells + Spaces(NUM_COLS), row, col) else Doc(cells, row, col)
  }

  /** Typing a character into the text: nothing that was written moves. */
  function DocPut(d: Doc, c: byte): Doc
    requires GoodDoc(d)
  {
    if IsNewline(c) then Grown(d.cells, d.row + 1, 0)
    else if c == 0 then d
    else
      var cells := d.cells[NUM_COLS * d.row + d.col := c];
      if d.col + 1 == NUM_COLS then Grown(cells, d.row + 1, 0) else Doc(cells, d.row, d.col + 1)
  }

  /** Stepping back one position and blanking it. */
  function DocBack(d: Doc): Doc
    requires GoodDoc(d) && !(d.col == 0 && d.row == 0)
  {
    var (row, col) := if d.col == 0 then (d.row - 1, NUM_COLS - 1) else (d.row, d.col - 1);
    Doc(d.cells[NUM_COLS * row + col := SPACE], row, col)
  }

  /** The page shows the last 25 rows of the text, with the cursor at the text's position. */
  ghost predicate Shows(s: Screen, d: Doc) {
    && OnPage(s) && GoodDoc(d)
    && s.x == d.col && s.y == d.row - (Rows(d) - NUM_ROWS)
    && s.cells == d.cells[|d.cells| - CELLS..]
  }

  lemma GrownKeepsWindow(cells: seq<byte>, row: int)
    requires |cells| % NUM_COLS == 0 && |cells| >= CELLS && |cells| / NUM_COLS - NUM_ROWS < row <= |cells| / NUM_COLS
    ensures var d := Grown(cells, row, 0);
      GoodDoc(d) && var window := cells[|cells| - CELLS..];
      Shows(if row < |cells| / NUM_COLS then Screen(0, row - (|cells| / NUM_COLS - NUM_ROWS), window)
            else Screen(0, NUM_ROWS - 1, Scrolled(window)), d)
  {
    var d := Grown(cells, row, 0);
    if row == |cells| / NUM_COLS {
      assert |d.cells| == |cells| + NUM_COLS;
      assert d.cells[|d.cells| - CELLS..] == Scrolled(cells[|cells| - CELLS..]);
    }
  }

  /** putc on the page is typing into the text. */
  lemma PutRefines(s: Screen, d: Doc, c: byte)
    requires Shows(s, d)
    ensures Shows(Put(s, c), DocPut(d, c))
  {
    if IsNewline(c) {
      GrownKeepsWindow(d.cells, d.row + 1);
    } else if c != 0 {
      PrintRefines(s, d, c);
    }
  }

  /** Where putc leaves the cursor. */
  lemma PutSteps(s: Screen, c: byte)
    requires OnPage(s) && !IsNewline(c) && c != 0
    ensures var cells := s.cells[NUM_COLS * s.y + s.x := c];
      Put(s, c) == if s.x + 1 < NUM_COLS then Screen(s.x + 1, s.y, cells)
                   else if s.y + 1 < NUM_ROWS then Screen(0, s.y + 1, cells)
                   else Screen(0, NUM_ROWS - 1, Scrolled(cells))
  {
  }

  lemma PrintRefines(s: Screen, d: Doc, c: byte)
    requires Shows(s, d) && !IsNewline(c) && c != 0
    ensures Shows(Put(s, c), DocPut(d, c))
  {
    if d.col + 1 == NUM_COLS {
      PrintAtRowEnd(s, d, c);
    } else {
      PrintInRow(s, d, c);
    }
  }

  lemma PrintInRow(s: Screen, d: Doc, c: byte)
    requires Shows(s, d) && !IsNewline(c) && c != 0 && d.col + 1 < NUM_COLS
    ensures Shows(Put(s, c), DocPut(d, c))
  {
    PutSteps(s, c);
    PrintedCell(s, d, c);
  }

  lemma PrintAtRowEnd(s: Screen, d: Doc, c: byte)
    requires Shows(s, d) && !IsNewline(c) && c != 0 && d.col + 1 == NUM_COLS
    ensures Shows(Put(s, c), DocPut(d, c))
  {
    hide Put, DocPut, Grown, Scrolled;
    PutSteps(s, c);
    DocPutAtRowEnd(d, c);
    PrintedCell(s, d, c);
    GrownKeepsWindow(d.cells[NUM_COLS * d.row + d.col := c], d.row + 1);
  }

  lemma DocPutAtRowEnd(d: Doc, c: byte)
    requires GoodDoc(d) && !IsNewline(c) && c != 0 && d.col + 1 == NUM_COLS
    ensures 0 <= NUM_COLS * d.row + d.col < |d.cells|
    ensures DocPut(d, c) == Grown(d.cells[NUM_COLS * d.row + d.col := c], d.row + 1, 0)
  {
    assert |d.cells| == NUM_COLS * Rows(d);
  }

  /** The page after the character is stored is still the end of the text. */
  lemma PrintedCell(s: Screen, d: Doc, c: byte)
    requires Shows(s, d)
    ensures 0 <= NUM_COLS * d.row + d.col < |d.cells|
    ensures d.cells[NUM_COLS * d.row + d.col := c][|d.cells| - CELLS..] == s.cells[NUM_COLS * s.y + s.x := c]
  {
    SameCell(s, d);
    WindowUpdate(d.cells, NUM_COLS * d.row + d.col, c);
  }

  /** The cursor's cell on the page is the position's cell in the text. */
  lemma SameCell(s: Screen, d: Doc)
    requires Shows(s, d)
    ensures |d.cells| - CELLS <= NUM_COLS * d.row + d.col < |d.cells|
    ensures NUM_COLS * d.row + d.col - (|d.cells| - CELLS) == NUM_COLS * s.y + s.x
  {
    assert |d.cells| == NUM_COLS * Rows(d);
  }

  lemma WindowUpdate(cells: seq<byte>, i: int, c: byte)
    requires |cells| >= CELLS && |cells| - CELLS <= i < |cells|
    ensures cells[i := c][|cells| - CELLS..] == cells[|cells| - CELLS..][i - (|cells| - CELLS) := c]
  {
  }

  /** backspace_helper on the page is stepping back in the text; it never scrolls. */
  lemma BackRefines(s: Screen, d: Doc)
    requires Shows(s, d) && !(s.x == 0 && s.y == 0)
    ensures !(d.col == 0 && d.row == 0) && Shows(Back(s), DocBack(d))
    ensures |DocBack(d).cells| == |d.cells|
  {
    var (row, col) := if d.col == 0 then (d.row - 1, NUM_COLS - 1) else (d.row, d.col - 1);
    WindowUpdate(d.cells, NUM_COLS * row + col, SPACE);
  }

  /** Backspace undoes typing: after a printable character, also one that wrapped the line or scrolled
      the page, it puts the position back and leaves the text as it was, but for that one cell, which
      is blank, and a blank row the typing may have added. */
  lemma BackspaceUndoesTyping(s: Screen, d: Doc, c: byte)
    requires Shows(s, d) && c != 0 && !IsNewline(c)
    ensures OnPage(Put(s, c)) && !(Put(s, c).x == 0 && Put(s, c).y == 0)
    ensures GoodDoc(DocPut(d, c)) && !(DocPut(d, c).col == 0 && DocPut(d, c).row == 0)
    ensures var back := DocBack(DocPut(d, c));
      && Shows(Back(Put(s, c)), back)
      && back.row == d.row && back.col == d.col
      && back.cells == d.cells[NUM_COLS * d.row + d.col := SPACE] + Spaces(|back.cells| - |d.cells|)
  {
    PutRefines(s, d, c);
    BackRefines(Put(s, c), DocPut(d, c));
    var back := DocBack(DocPut(d, c));
    assert |back.cells| == |d.cells| || |back.cells| == |d.cells| + NUM_COLS;
  }

  // ---------- wrapping a text at 80 columns ----------

  /** The printable characters of a line. */
  function Visible(line: seq<byte>): (r: seq<byte>)
    ensures |r| <= |line|
  {
    if line == [] then []
    else Visible(line[..|line| - 1]) + if line[|line| - 1] == 0 then [] else [line[|line| - 1]]
  }

  /** A line cut into rows of 80; the last row is shorter, possibly empty. */
  function Chunks(line: seq<byte>): (rows: seq<seq<byte>>)
    ensures rows != [] && |rows[|rows| - 1]| < NUM_COLS
    ensures forall i :: 0 <= i < |rows| ==> |rows[i]| <= NUM_COLS
  {
    if |line| < NUM_COLS then [line] else [line[..NUM_COLS]] + Chunks(line[NUM_COLS..])
  }

  /** Where the last line of a text starts. */
  function LastLineStart(text: seq<byte>): (i: nat)
    ensures i <= |text| && (i > 0 ==> IsNewline(text[i - 1]))
    ensures forall k :: i <= k < |text| ==> !IsNewline(text[k])
  {
    if text == [] || IsNewline(text[|text| - 1]) then |text| else LastLineStart(text[..|text| - 1])
  }

  /** A text wrapped at 80 columns: the rows of each line, one line after the other. */
  function Wrapped(text: seq<byte>): (rows: seq<seq<byte>>)
    ensures rows != [] && |rows[|rows| - 1]| < NUM_COLS
    ensures forall i :: 0 <= i < |rows| ==> |rows[i]| <= NUM_COLS
  {
    var i := LastLineStart(text);
    (if i == 0 then [] else Wrapped(text[..i - 1])) + Chunks(Visible(text[i..]))
  }

  /** The rows of a line: 80 characters each, but for the last, which is shorter; together the line. */
  lemma {:induction false} ChunksOfALine(line: seq<byte>)
    ensures var rows := Chunks(line);
      rows != [] && |rows[|rows| - 1]| < 80
      && (forall i :: 0 <= i < |rows| - 1 ==> |rows[i]| == 80) && Concat(rows) == line
  {
    if |line| >= NUM_COLS {
      ChunksOfALine(line[NUM_COLS..]);
      var rest := Chunks(line[NUM_COLS..]);
      assert ([line[..NUM_COLS]] + rest)[1..] == rest;
    } else {
      assert [line][1..] == [];
    }
  }

  function Concat(rows: seq<seq<byte>>): seq<byte> {
    if rows == [] then [] else rows[0] + Concat(rows[1..])
  }

  /** The rows of a text are those of its lines, each without its NULs; a newline or a carriage return
      ends a line. */
  lemma WrappedLine(text: seq<byte>, newline: byte, line: seq<byte>)
    requires newline == 10 || newline == 13
    requires 10 !in line && 13 !in line
    ensures Wrapped(line) == Chunks(Visible(line))
    ensures Wrapped(text + [newline] + line) == Wrapped(text) + Chunks(Visible(line))
  {
    LastLineStartIs(line, 0);
    assert line[0..] == line && [] + Chunks(Visible(line)) == Chunks(Visible(line));
    var all := text + [newline] + line;
    LastLineStartIs(all, |text| + 1);
    assert all[..|text|] == text && all[|text| + 1..] == line;
  }

  lemma LastLineStartIs(text: seq<byte>, i: nat)
    requires i <= |text| && (i > 0 ==> IsNewline(text[i - 1]))
    requires 10 !in text[i..] && 13 !in text[i..]
    ensures LastLineStart(text) == i
  {
    forall k | i <= k < |text|
      ensures !IsNewline(text[k])
    {
      assert text[k] == text[i..][k - i];
    }
  }

  /** The visible characters are those that are not NUL, in order. */
  lemma {:induction false} VisibleIs(line: seq<byte>)
    ensures 0 !in Visible(line) && (0 !in line ==> Visible(line) == line)
    ensures multiset(Visible(line)) == multiset(line)[0 := 0]
  {
    if line != [] {
      var n := |line| - 1;
      VisibleIs(line[..n]);
      assert line == line[..n] + [line[n]];
    } else {
      assert multiset(line) == multiset{};
    }
  }

  /** Typing one more character into wrapped rows. */
  function Typed(rows: seq<seq<byte>>, c: byte): seq<seq<byte>>
    requires rows != []
  {
    var n := |rows| - 1;
    if IsNewline(c) then rows + [[]]
    else if c == 0 then rows
    else if |rows[n]| + 1 == NUM_COLS then rows[n := rows[n] + [c]] + [[]]
    else rows[n := rows[n] + [c]]
  }

  lemma {:induction false} ChunksGrow(line: seq<byte>, c: byte)
    requires !IsNewline(c) && c != 0
    ensures Chunks(line + [c]) == Typed(Chunks(line), c)
  {
    if |line| >= NUM_COLS {
      ChunksGrow(line[NUM_COLS..], c);
      TypedBehind([line[..NUM_COLS]], Chunks(line[NUM_COLS..]), c);
      assert (line + [c])[..NUM_COLS] == line[..NUM_COLS];
      assert (line + [c])[NUM_COLS..] == line[NUM_COLS..] + [c];
    } else if |line| + 1 == NUM_COLS {
      assert (line + [c])[..NUM_COLS] == line + [c] && (line + [c])[NUM_COLS..] == [];
    }
  }

  lemma TypedBehind(head: seq<seq<byte>>, rows: seq<seq<byte>>, c: byte)
    requires rows != []
    ensures Typed(head + rows, c) == head + Typed(rows, c)
  {
  }

  lemma VisibleGrows(line: seq<byte>, c: byte)
    ensures Visible(line + [c]) == Visible(line) + if c == 0 then [] else [c]
  {
    assert (line + [c])[..|line|] == line;
  }

  /** The last line of a text, and the text before it. */
  lemma SameLine(text: seq<byte>, c: byte)
    requires !IsNewline(c)
    ensures LastLineStart(text + [c]) == LastLineStart(text)
    ensures var i := LastLineStart(text); (text + [c])[i..] == text[i..] + [c] && (i > 0 ==>
        (text + [c])[..i - 1] == text[..i - 1])
  {
    assert (text + [c])[..|text|] == text;
  }

  /** Wrapping keeps up with typing. */
  lemma WrappedGrows(text: seq<byte>, c: byte)
    ensures Wrapped(text + [c]) == Typed(Wrapped(text), c)
  {
    if IsNewline(c) {
      var more := text + [c];
      assert more[..|more| - 1] == text && more[|more|..] == [];
      assert Chunks(Visible([])) == [[]];
    } else {
      var i := LastLineStart(text);
      var head := if i == 0 then [] else Wrapped(text[..i - 1]);
      SameLine(text, c);
      VisibleGrows(text[i..], c);
      assert Wrapped(text + [c]) == head + Chunks(Visible(text[i..] + [c]));
      TypedBehind(head, Chunks(Visible(text[i..])), c);
      if c != 0 {
        ChunksGrow(Visible(text[i..]), c);
      } else {
        assert Visible(text[i..]) + [] == Visible(text[i..]);
      }
    }
  }

  /** A row padded to the page width. */
  function Padded(row: seq<byte>): (r: seq<byte>)
    requires |row| <= NUM_COLS
    ensures |r| == NUM_COLS
  {
    row + Spaces(NUM_COLS - |row|)
  }

  function Flat(rows: seq<seq<byte>>): (r: seq<byte>)
    requires forall i :: 0 <= i < |rows| ==> |rows[i]| <= NUM_COLS
    ensures |r| == NUM_COLS * |rows|
  {
    if rows == [] then [] else Flat(rows[..|rows| - 1]) + Padded(rows[|rows| - 1])
  }

  /** Wrapped rows as a text on whole rows, at least a page long. */
  function DocOf(rows: seq<seq<byte>>): Doc
    requires rows != [] && forall i :: 0 <= i < |rows| ==> |rows[i]| <= NUM_COLS
  {
    Doc(Flat(rows) + Spaces(NUM_COLS * if |rows| < NUM_ROWS then NUM_ROWS - |rows|
        else 0), |rows| - 1, |rows[|rows| - 1]|)
  }

  lemma DocOfGrows(rows: seq<seq<byte>>, c: byte)
    requires rows != [] && |rows[|rows| - 1]| < NUM_COLS
    requires forall i :: 0 <= i < |rows| ==> |rows[i]| <= NUM_COLS
    ensures forall i :: 0 <= i < |Typed(rows, c)| ==> |Typed(rows, c)[i]| <= NUM_COLS
    ensures GoodDoc(DocOf(rows)) && DocPut(DocOf(rows), c) == DocOf(Typed(rows, c))
  {
    DocOfIsGood(rows);
    if IsNewline(c) {
      NewRow(rows);
    } else if c != 0 {
      PrintGrows(rows, c);
    }
  }

  lemma PrintGrows(rows: seq<seq<byte>>, c: byte)
    requires rows != [] && |rows[|rows| - 1]| < NUM_COLS && !IsNewline(c) && c != 0
    requires forall i :: 0 <= i < |rows| ==> |rows[i]| <= NUM_COLS
    ensures forall i :: 0 <= i < |Typed(rows, c)| ==> |Typed(rows, c)[i]| <= NUM_COLS
    ensures GoodDoc(DocOf(rows)) && DocPut(DocOf(rows), c) == DocOf(Typed(rows, c))
  {
    DocOfIsGood(rows);
    LongerRow(rows, c);
    var n := |rows| - 1;
    var more := rows[n := rows[n] + [c]];
    if |rows[n]| + 1 == NUM_COLS {
      NewRow(more);
      assert Typed(rows, c) == more + [[]];
    } else {
      assert Typed(rows, c) == more;
    }
  }

  lemma DocOfIsGood(rows: seq<seq<byte>>)
    requires rows != [] && |rows[|rows| - 1]| < NUM_COLS
    requires forall i :: 0 <= i < |rows| ==> |rows[i]| <= NUM_COLS
    ensures GoodDoc(DocOf(rows)) && Rows(DocOf(rows)) == if |rows| < NUM_ROWS then NUM_ROWS else |rows|
  {
    var n := if |rows| < NUM_ROWS then NUM_ROWS else |rows|;
    assert |DocOf(rows).cells| == NUM_COLS * n;
  }

  /** An empty row below: one of the blank rows of the page, or a new one. */
  lemma NewRow(rows: seq<seq<byte>>)
    requires rows != [] && forall i :: 0 <= i < |rows| ==> |rows[i]| <= NUM_COLS
    ensures forall i :: 0 <= i < |rows + [[]]| ==> |(rows + [[]])[i]| <= NUM_COLS
    ensures DocOf(rows + [[]]) == Grown(DocOf(rows).cells, |rows|, 0)
  {
    var more: seq<seq<byte>> := rows + [[]];
    assert more[..|more| - 1] == rows;
    assert Padded([]) == Spaces(NUM_COLS);
    assert Flat(more) == Flat(rows) + Spaces(NUM_COLS);
    if |rows| < NUM_ROWS {
      var k := NUM_COLS * (NUM_ROWS - |rows| - 1);
      assert Spaces(NUM_COLS) + Spaces(k) == Spaces(NUM_COLS * (NUM_ROWS - |rows|));
      assert Flat(rows) + Spaces(NUM_COLS) + Spaces(k) == Flat(rows) + (Spaces(NUM_COLS) + Spaces(k));
    }
  }

  /** One more character in the last row. */
  lemma LongerRow(rows: seq<seq<byte>>, c: byte)
    requires rows != [] && |rows[|rows| - 1]| < NUM_COLS
    requires forall i :: 0 <= i < |rows| ==> |rows[i]| <= NUM_COLS
    ensures var n := |rows| - 1; var more := rows[n := rows[n] + [c]];
      (forall i :: 0 <= i < |more| ==> |more[i]| <= NUM_COLS)
      && DocOf(more).cells == DocOf(rows).cells[NUM_COLS * n + |rows[n]| := c]
  {
    var n := |rows| - 1;
    var more := rows[n := rows[n] + [c]];
    assert more[..n] == rows[..n];
    assert Padded(more[n]) == Padded(rows[n])[|rows[n]| := c];
  }

  lemma BlankShowsNothing()
    ensures Shows(BLANK, DocOf(Wrapped([])))
  {
    assert Visible([]) == [];
    OneEmptyRow(Wrapped([]));
  }

  lemma OneEmptyRow(rows: seq<seq<byte>>)
    requires |rows| == 1 && rows[0] == []
    ensures DocOf(rows) == Doc(Spaces(CELLS), 0, 0)
  {
    assert rows[..0] == [];
    assert Flat(rows) == Padded(rows[0]) == Spaces(NUM_COLS);
    assert Spaces(NUM_COLS) + Spaces(NUM_COLS * (NUM_ROWS - 1)) == Spaces(CELLS);
  }

  /** What a fresh terminal shows after any sequence of characters: the last 25 rows of that text
      wrapped at 80 columns, with the cursor behind its last character. */
  lemma {:induction false} PageIsTailOfWrappedText(text: seq<byte>)
    ensures Shows(PutAll(BLANK, text), DocOf(Wrapped(text)))
  {
    hide Wrapped, DocOf, Put, Shows;
    if text == [] {
      BlankShowsNothing();
    } else {
      var n := |text| - 1;
      PageIsTailOfWrappedText(text[..n]);
      OneMore(PutAll(BLANK, text[..n]), text[..n], text[n]);
      assert text == text[..n] + [text[n]];
    }
  }

  lemma OneMore(s: Screen, text: seq<byte>, c: byte)
    requires Shows(s, DocOf(Wrapped(text)))
    ensures Shows(Put(s, c), DocOf(Wrapped(text + [c])))
  {
    hide Wrapped, DocOf, Put, DocPut;
    WrappedGrows(text, c);
    DocOfGrows(Wrapped(text), c);
    PutRefines(s, DocOf(Wrapped(text)), c);
  }

  // ---------- the page, row by row ----------

  lemma {:induction false} FlatRow(rows: seq<seq<byte>>, i: nat)
    requires i < |rows| && forall k :: 0 <= k < |rows| ==> |rows[k]| <= NUM_COLS
    ensures Flat(rows)[NUM_COLS * i..NUM_COLS * i + NUM_COLS] == Padded(rows[i])
  {
    var n := |rows| - 1;
    if i < n {
      FlatRow(rows[..n], i);
      assert Flat(rows)[..NUM_COLS * n] == Flat(rows[..n]);
      var at := NUM_COLS * i;
      assert Flat(rows)[at..at + NUM_COLS] == Flat(rows[..n])[at..at + NUM_COLS];
    }
  }

  /** What row y of a page shows: the row `first + y` of the text, or nothing, padded with blanks. */
  ghost predicate RowShows(s: Screen, rows: seq<seq<byte>>, first: int, y: int)
    requires |s.cells| == 2000 && 0 <= y < 25
  {
    var row: seq<byte> := if 0 <= first + y < |rows| then rows[first + y] else [];
    |row| <= 80 && s.cells[80 * y..80 * y + 80] == row + seq(80 - |row|, _ => 32)
  }

  lemma DocRow(s: Screen, rows: seq<seq<byte>>, y: int)
    requires rows != [] && forall k :: 0 <= k < |rows| ==> |rows[k]| <= NUM_COLS
    requires Shows(s, DocOf(rows)) && 0 <= y < 25
    ensures RowShows(s, rows, if |rows| > 25 then |rows| - 25 else 0, y)
  {
    hide Flat;
    var d := DocOf(rows);
    var first := if |rows| > 25 then |rows| - 25 else 0;
    var i := first + y;
    assert |d.cells| - CELLS == NUM_COLS * first;
    SliceOfTail(d.cells, NUM_COLS * first, NUM_COLS * y);
    assert s.cells[80 * y..80 * y + 80] == d.cells[NUM_COLS * i..NUM_COLS * i + NUM_COLS];
    RowOfDoc(rows, i);
  }

  /** Row i of the text, padded with blanks; below the text everything is blank. */
  lemma RowOfDoc(rows: seq<seq<byte>>, i: nat)
    requires rows != [] && forall k :: 0 <= k < |rows| ==> |rows[k]| <= NUM_COLS
    requires NUM_COLS * i + NUM_COLS <= |DocOf(rows).cells|
    ensures var row := if i < |rows| then rows[i] else [];
      DocOf(rows).cells[NUM_COLS * i..NUM_COLS * i + NUM_COLS] == row + seq(80 - |row|, _ => 32)
  {
    hide Flat;
    var cells, head := DocOf(rows).cells, Flat(rows);
    if i < |rows| {
      FlatRow(rows, i);
      assert cells == head + cells[|head|..];
      SliceOfHead(head, cells[|head|..], NUM_COLS * i);
      assert Padded(rows[i]) == rows[i] + seq(80 - |rows[i]|, _ => 32);
    } else {
      BlankBelow(cells, |head|, NUM_COLS * i);
    }
  }

  lemma BlankBelow(cells: seq<byte>, from: nat, at: nat)
    requires from <= at && at + NUM_COLS <= |cells| && forall k :: from <= k < |cells| ==> cells[k] == SPACE
    ensures cells[at..at + NUM_COLS] == [] + seq(80, _ => 32)
  {
  }

  lemma SliceOfTail(cells: seq<byte>, first: nat, at: nat)
    requires first + at + NUM_COLS <= |cells|
    ensures cells[first..][at..at + NUM_COLS] == cells[first + at..first + at + NUM_COLS]
  {
  }

  lemma SliceOfHead(head: seq<byte>, tail: seq<byte>, at: nat)
    requires at + NUM_COLS <= |head|
    ensures (head + tail)[at..at + NUM_COLS] == head[at..at + NUM_COLS]
  {
  }

  /** What the user sees after any characters on a fresh page: of the text's rows, wrapped at 80 columns,
      the last 25, one below the other and padded with blanks, with the cursor behind the last one. */
  lemma PageShowsTheLastRows(text: seq<byte>)
    ensures var s, rows := PutAll(BLANK, text), Wrapped(text);
      var first := if |rows| > 25 then |rows| - 25 else 0;
      && |s.cells| == 2000 && s.y == |rows| - 1 - first && s.x == |rows[|rows| - 1]|
      && forall y :: 0 <= y < 25 ==> RowShows(s, rows, first, y)
  {
    var s, rows := PutAll(BLANK, text), Wrapped(text);
    var first := if |rows| > 25 then |rows| - 25 else 0;
    PageIsTailOfWrappedText(text);
    forall y | 0 <= y < 25
      ensures RowShows(s, rows, first, y)
    {
      DocRow(s, rows, y);
    }
  }

  // ---------- typing and erasing ----------

  datatype Stroke = Type(c: byte) | Erase

  /** A stroke that the page can take: no backspace in its top-left corner. */
  ghost predicate CanStrike(s: Screen, k: Stroke) {
    OnPage(s) && (k == Erase ==> !(s.x == 0 && s.y == 0))
  }

  function Strike(s: Screen, k: Stroke): (r: Screen)
    requires CanStrike(s, k)
    ensures OnPage(r)
  {
    match k
    case Type(c) => Put(s, c)
    case Erase => Back(s)
  }

  /** The same stroke in the unbounded text. */
  function DocStrike(d: Doc, k: Stroke): Doc
    requires GoodDoc(d) && (k == Erase ==> !(d.col == 0 && d.row == 0))
  {
    match k
    case Type(c) => DocPut(d, c)
    case Erase => DocBack(d)
  }

  /** Pages that strokes make one of the other. */
  ghost predicate Strikes(ss: seq<Screen>, ks: seq<Stroke>) {
    && |ss| == |ks| + 1
    && forall i :: 0 <= i < |ks| ==> CanStrike(ss[i], ks[i]) && ss[i + 1] == Strike(ss[i], ks[i])
  }

  /** The unbounded text after the strokes; a backspace at the first cell of the shown rows is left out. */
  function DocAfter(d: Doc, ks: seq<Stroke>): (r: Doc)
    requires GoodDoc(d)
    ensures GoodDoc(r)
    decreases |ks|
  {
    if ks == [] then d
    else
      var e, k := DocAfter(d, ks[..|ks| - 1]), ks[|ks| - 1];
      if k == Erase && e.col == 0 && e.row == Rows(e) - NUM_ROWS then e else DocStrike(e, k)
  }

  /** After any run of characters and backspaces, none of these in the top-left corner, the page shows
      the last 25 rows of the text that the same run makes. */
  lemma {:induction false} PageShowsStrokes(ss: seq<Screen>, ks: seq<Stroke>, d: Doc)
    requires Strikes(ss, ks) && Shows(ss[0], d)
    ensures Shows(ss[|ks|], DocAfter(d, ks))
    decreases |ks|
  {
    if ks != [] {
      var n := |ks| - 1;
      PageShowsStrokes(ss[..n + 1], ks[..n], d);
      var s, e := ss[n], DocAfter(d, ks[..n]);
      match ks[n]
      case Type(c) => PutRefines(s, e, c);
      case Erase => BackRefines(s, e);
    }
  }
}
