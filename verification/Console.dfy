/** The three terminals' video pages and cursors, written in place by putc and its relatives. */
module Console {
  import opened Bytes
  import opened Text

  const ATTRIB: byte := 7
  const PAGE_SIZE: int := 4096
  const TERMINALS: int := 3

  /** Where the character of cell i of a terminal's page lies; its attribute lies behind it. The
      pages start at VID1 and follow each other. */
  function CellAt(term: int, i: int): int {
    term * PAGE_SIZE + 2 * i
  }

  /** The characters of a page. */
  function Chars(m: seq<byte>, term: int): (r: seq<byte>)
    requires |m| == TERMINALS * PAGE_SIZE && 0 <= term < TERMINALS
    ensures |r| == CELLS
    ensures forall i :: 0 <= i < CELLS ==> r[i] == m[CellAt(term, i)]
  {
    seq(CELLS, i requires 0 <= i < CELLS => m[CellAt(term, i)])
  }

  /** The attributes of a page. */
  function Attributes(m: seq<byte>, term: int): (r: seq<byte>)
    requires |m| == TERMINALS * PAGE_SIZE && 0 <= term < TERMINALS
    ensures |r| == CELLS
    ensures forall i :: 0 <= i < CELLS ==> r[i] == m[CellAt(term, i) + 1]
  {
    seq(CELLS, i requires 0 <= i < CELLS => m[CellAt(term, i) + 1])
  }

  /** Every cell of a page has the attribute that makes its character visible. */
  ghost predicate Lit(m: seq<byte>, term: int)
    requires |m| == TERMINALS * PAGE_SIZE && 0 <= term < TERMINALS
  {
    forall i :: 0 <= i < CELLS ==> Attributes(m, term)[i] == 7
  }

  /** Two memories differ at most in the cells of one page. */
  ghost predicate OnlyPage(m: seq<byte>, n: seq<byte>, term: int)
    requires |m| == |n|
  {
    forall k :: 0 <= k < |m| && !(CellAt(term, 0) <= k < CellAt(term, CELLS)) ==> n[k] == m[k]
  }

  lemma OtherPagesKeep(m: seq<byte>, n: seq<byte>, term: int, other: int)
    requires |m| == |n| == TERMINALS * PAGE_SIZE && 0 <= term < TERMINALS && 0 <= other < TERMINALS && other != term
    requires OnlyPage(m, n, term)
    ensures Chars(n, other) == Chars(m, other)
  {
    forall i | 0 <= i < CELLS
      ensures Chars(n, other)[i] == Chars(m, other)[i]
    {
      assert n[CellAt(other, i)] == m[CellAt(other, i)];
    }
  }

  /** The cell that backspace_helper writes lies in the terminal's page exactly when the cursor is
      not in the top-left corner. */
  lemma BackspaceStaysOnPageIff(x: int, y: int, term: int)
    requires 0 <= x < NUM_COLS && 0 <= y < NUM_ROWS && 0 <= term < TERMINALS
    ensures var at := if x == 0 then CellAt(term, NUM_COLS * (y - 1) + NUM_COLS - 1)
        else CellAt(term, NUM_COLS * y + x - 1);
      CellAt(term, 0) <= at && at + 1 < CellAt(term, CELLS) <==> !(x == 0 && y == 0)
  {
  }

  lemma ShiftedOne(before: seq<byte>, i: int)
    requires |before| == CELLS && 0 <= i < CELLS - NUM_COLS
    ensures var now := before[NUM_COLS..NUM_COLS + i] + before[i..];
      now[i := now[i + NUM_COLS]] == before[NUM_COLS..NUM_COLS + i + 1] + before[i + 1..]
  {
  }

  class Video {
    const pages: array<byte>
    // what the adapter displays
    const videoMem: array<byte>
    var currTerminal: int
    const screenX: array<int>
    const screenY: array<int>

    ghost predicate Valid()
      reads this, screenX, screenY
    {
      && pages.Length == TERMINALS * PAGE_SIZE && videoMem.Length == PAGE_SIZE && videoMem != pages
      && 0 <= currTerminal < TERMINALS && screenX.Length == TERMINALS && screenY.Length == TERMINALS
      && screenX != screenY
      && forall t :: 0 <= t < TERMINALS ==> 0 <= screenX[t] < NUM_COLS && 0 <= screenY[t] < NUM_ROWS
    }

    ghost function View(term: int): Screen
      requires Valid() && 0 <= term < TERMINALS
      reads this, pages, screenX, screenY
    {
      Screen(screenX[term], screenY[term], Chars(pages[..], term))
    }

    /** No other terminal's page or cursor has changed, nor any byte outside this one's cells. */
    twostate predicate OnlyTerminal(term: int)
      requires 0 <= term < TERMINALS
      reads this, pages, screenX, screenY
    {
      && OnlyPage(old(pages[..]), pages[..], term)
      && screenX.Length == screenY.Length == TERMINALS
      && forall t :: 0 <= t < TERMINALS && t != term ==> screenX[t] == old(screenX[t]) && screenY[t] == old(screenY[t])
    }

    constructor ()
      ensures Valid() && fresh(pages) && fresh(videoMem) && fresh(screenX) && fresh(screenY)
    {
      videoMem := new byte[PAGE_SIZE](_ => 0);
      currTerminal := 0;
      pages := new byte[TERMINALS * PAGE_SIZE](_ => 0);
      screenX := new int[TERMINALS](_ => 0);
      screenY := new int[TERMINALS](_ => 0);
      new;
    }

    method SetCell(term: int, i: int, c: byte)
      requires pages.Length == TERMINALS * PAGE_SIZE && 0 <= term < TERMINALS && 0 <= i < CELLS
      modifies pages
      ensures pages[..] == old(pages[..])[4096 * term + 2 * i := c][4096 * term + 2 * i + 1 := 7]
      ensures Chars(pages[..], term) == Chars(old(pages[..]), term)[i := c]
      ensures Attributes(pages[..], term) == Attributes(old(pages[..]), term)[i := 7]
      ensures OnlyPage(old(pages[..]), pages[..], term)
    {
      pages[CellAt(term, i)] := c;
      pages[CellAt(term, i) + 1] := ATTRIB;
    }

    /** reset: blank the displayed terminal's page and what is displayed, and send the cursor home. */
    method Reset()
      requires Valid()
      modifies pages, videoMem, screenX, screenY
      ensures Valid() && View(currTerminal) == BLANK && OnlyTerminal(currTerminal)
      ensures Lit(pages[..], currTerminal)
      ensures forall i :: 0 <= i < CELLS ==> videoMem[2 * i] == 32 && videoMem[2 * i + 1] == 7
      ensures videoMem[2 * CELLS..] == old(videoMem[2 * CELLS..])
    {
      BlankDisplay();
      BlankPage(currTerminal);
      screenX[currTerminal] := 0;
      screenY[currTerminal] := 0;
    }

    /** The first loop of reset. */
    method BlankDisplay()
      requires videoMem.Length == PAGE_SIZE
      modifies videoMem
      ensures forall i :: 0 <= i < CELLS ==> videoMem[2 * i] == 32 && videoMem[2 * i + 1] == 7
      ensures videoMem[2 * CELLS..] == old(videoMem[2 * CELLS..])
    {
      var i := 0;
      while i < NUM_ROWS * NUM_COLS
        invariant 0 <= i <= CELLS
        invariant forall k :: 0 <= k < i ==> videoMem[2 * k] == SPACE && videoMem[2 * k + 1] == ATTRIB
        invariant videoMem[2 * CELLS..] == old(videoMem[2 * CELLS..])
      {
        videoMem[2 * i] := SPACE;
        videoMem[2 * i + 1] := ATTRIB;
        i := i + 1;
      }
    }

    /** The second loop of reset. */
    method BlankPage(term: int)
      requires pages.Length == TERMINALS * PAGE_SIZE && 0 <= term < TERMINALS
      modifies pages
      ensures Chars(pages[..], term) == Spaces(CELLS) && OnlyPage(old(pages[..]), pages[..], term)
      ensures Lit(pages[..], term)
    {
      var i := 0;
      while i < NUM_ROWS * NUM_COLS
        invariant 0 <= i <= CELLS && OnlyPage(old(pages[..]), pages[..], term)
        invariant forall k :: 0 <= k < i ==> Chars(pages[..], term)[k] == SPACE
        invariant forall k :: 0 <= k < i ==> Attributes(pages[..], term)[k] == 7
      {
        SetCell(term, i, SPACE);
        i := i + 1;
      }
      assert Chars(pages[..], term) == Spaces(CELLS);
    }

    method VertScroll(term: int)
      requires pages.Length == TERMINALS * PAGE_SIZE && 0 <= term < TERMINALS
      modifies pages
      ensures Chars(pages[..], term) == Scrolled(Chars(old(pages[..]), term))
      ensures OnlyPage(old(pages[..]), pages[..], term)
      ensures Lit(pages[..], term)
    {
      ShiftRowsUp(term);
      BlankLastRow(term);
    }

    /** The first loop of vert_scroll. */
    method ShiftRowsUp(term: int)
      requires pages.Length == TERMINALS * PAGE_SIZE && 0 <= term < TERMINALS
      modifies pages
      ensures Chars(pages[..], term)[..CELLS - NUM_COLS] == Chars(old(pages[..]), term)[NUM_COLS..]
      ensures OnlyPage(old(pages[..]), pages[..], term)
      ensures forall k :: 0 <= k < CELLS - NUM_COLS ==> Attributes(pages[..], term)[k] == 7
    {
      hide Chars, Attributes, CellAt;
      ghost var before := Chars(pages[..], term);
      var i := 0;
      while i < (NUM_ROWS - 1) * NUM_COLS
        invariant 0 <= i <= CELLS - NUM_COLS && OnlyPage(old(pages[..]), pages[..], term)
        invariant Chars(pages[..], term) == before[NUM_COLS..NUM_COLS + i] + before[i..]
        invariant forall k :: 0 <= k < i ==> Attributes(pages[..], term)[k] == 7
      {
        MoveUp(term, i);
        ShiftedOne(before, i);
        i := i + 1;
      }
    }

    /** One round of it. */
    method MoveUp(term: int, i: int)
      requires pages.Length == TERMINALS * PAGE_SIZE && 0 <= term < TERMINALS && 0 <= i < CELLS - NUM_COLS
      modifies pages
      ensures Chars(pages[..], term) == Chars(old(pages[..]), term)[i := Chars(old(pages[..]), term)[i + NUM_COLS]]
      ensures Attributes(pages[..], term) == Attributes(old(pages[..]), term)[i := 7]
      ensures OnlyPage(old(pages[..]), pages[..], term)
    {
      SetCell(term, i, pages[CellAt(term, i + NUM_COLS)]);
    }

    /** The second loop of vert_scroll. */
    method BlankLastRow(term: int)
      requires pages.Length == TERMINALS * PAGE_SIZE && 0 <= term < TERMINALS
      modifies pages
      ensures Chars(pages[..], term) == Chars(old(pages[..]), term)[..CELLS - NUM_COLS] + Spaces(NUM_COLS)
      ensures OnlyPage(old(pages[..]), pages[..], term)
      ensures Attributes(pages[..], term) ==
        Attributes(old(pages[..]), term)[..CELLS - NUM_COLS] + seq(NUM_COLS, _ => 7)
    {
      ghost var before := Chars(pages[..], term);
      ghost var now := before;
      ghost var lit := Attributes(pages[..], term);
      ghost var attributes := lit;
      var i := (NUM_ROWS - 1) * NUM_COLS;
      while i < NUM_ROWS * NUM_COLS
        invariant CELLS - NUM_COLS <= i <= CELLS && OnlyPage(old(pages[..]), pages[..], term)
        invariant now == Chars(pages[..], term)
        invariant forall k :: 0 <= k < CELLS - NUM_COLS ==> now[k] == before[k]
        invariant forall k :: CELLS - NUM_COLS <= k < i ==> now[k] == SPACE
        invariant attributes == Attributes(pages[..], term)
        invariant forall k :: 0 <= k < CELLS - NUM_COLS ==> attributes[k] == lit[k]
        invariant forall k :: CELLS - NUM_COLS <= k < i ==> attributes[k] == 7
      {
        SetCell(term, i, SPACE);
        now, attributes := Chars(pages[..], term), Attributes(pages[..], term);
        i := i + 1;
      }
    }

    method Putc(c: byte, term: int)
      requires Valid() && 0 <= term < TERMINALS
      modifies pages, screenX, screenY
      ensures Valid() && View(term) == Put(old(View(term)), c) && OnlyTerminal(term)
      ensures old(Lit(pages[..], term)) ==> Lit(pages[..], term)
    {
      if c == 10 || c == 13 {
        screenY[term] := screenY[term] + 1;
        screenX[term] := 0;
        if screenY[term] > NUM_ROWS - 1 {
          VertScroll(term);
          screenY[term] := NUM_ROWS - 1;
        }
      } else if c == 0 {
      } else {
        PutPrintable(c, term);
      }
    }

    /** The branch of putc for a character that is drawn. */
    method PutPrintable(c: byte, term: int)
      requires Valid() && 0 <= term < TERMINALS && !IsNewline(c) && c != 0
      modifies pages, screenX, screenY
      ensures Valid() && View(term) == Put(old(View(term)), c) && OnlyTerminal(term)
      ensures old(Lit(pages[..], term)) ==> Lit(pages[..], term)
      ensures var at := NUM_COLS * old(screenY[term]) + old(screenX[term]);
        if at + 1 == CELLS then Lit(pages[..], term)
        else Attributes(pages[..], term) == Attributes(old(pages[..]), term)[at := 7]
    {
      SetCell(term, NUM_COLS * screenY[term] + screenX[term], c);
      screenX[term] := screenX[term] + 1;
      if screenY[term] + screenX[term] / NUM_COLS == NUM_ROWS {
        VertScroll(term);
        screenY[term] := NUM_ROWS - 1;
      } else {
        screenY[term] := (screenY[term] + screenX[term] / NUM_COLS) % NUM_ROWS;
      }
      screenX[term] := screenX[term] % NUM_COLS;
    }

    /** putcforcenoscroll: a newline in the last row takes the cursor out of the page. */
    method PutcNoScroll(c: byte, term: int)
      requires Valid() && 0 <= term < TERMINALS
      modifies pages, screenX, screenY
      ensures OnlyTerminal(term) && (old(Lit(pages[..], term)) ==> Lit(pages[..], term))
      ensures Valid() <==> !(IsNewline(c) && old(screenY[term]) == NUM_ROWS - 1)
      ensures IsNewline(c) ==>
        screenX[term] == 0 && screenY[term] == old(screenY[term]) + 1 && pages[..] == old(pages[..])
      ensures !IsNewline(c) ==> var s := old(View(term));
        View(term) == Screen((s.x + 1) % NUM_COLS, s.y, s.cells[NUM_COLS * s.y + s.x := c])
    {
      if c == 10 || c == 13 {
        screenY[term] := screenY[term] + 1;
        screenX[term] := 0;
      } else {
        SetCell(term, NUM_COLS * screenY[term] + screenX[term], c);
        screenX[term] := screenX[term] + 1;
        screenX[term] := screenX[term] % NUM_COLS;
        screenY[term] := (screenY[term] + screenX[term] / NUM_COLS) % NUM_ROWS;
      }
    }

    method BackspaceHelper(term: int)
      requires Valid() && 0 <= term < TERMINALS && !(screenX[term] == 0 && screenY[term] == 0)
      modifies pages, screenX, screenY
      ensures Valid() && View(term) == Back(old(View(term))) && OnlyTerminal(term)
      ensures old(Lit(pages[..], term)) ==> Lit(pages[..], term)
    {
      hide Lit, Chars, Attributes;
      if screenX[term] == 0 {
        screenX[term] := NUM_COLS - 1;
        screenY[term] := screenY[term] - 1;
        var tempy := screenY[term];
        PutcNoScroll(SPACE, term);
        screenX[term] := NUM_COLS - 1;
        screenY[term] := tempy;
      } else {
        screenX[term] := screenX[term] - 1;
        Putc(SPACE, term);
        screenX[term] := screenX[term] - 1;
      }
    }

    /** terminal_write and puts: the characters one after the other. */
    method Write(text: seq<byte>, term: int)
      requires Valid() && 0 <= term < TERMINALS
      modifies pages, screenX, screenY
      ensures Valid() && View(term) == PutAll(old(View(term)), text) && OnlyTerminal(term)
      ensures old(Lit(pages[..], term)) ==> Lit(pages[..], term)
    {
      var i := 0;
      while i < |text|
        invariant 0 <= i <= |text| && Valid() && OnlyTerminal(term)
        invariant View(term) == PutAll(old(View(term)), text[..i])
        invariant old(Lit(pages[..], term)) ==> Lit(pages[..], term)
      {
        Putc(text[i], term);
        assert text[..i + 1][..i] == text[..i];
        i := i + 1;
      }
      assert text[..|text|] == text;
    }
  }
}
