/** What the user sees of a line while editing it: kbrd_int sends every key that the line buffer
    accepts to the screen as well. */
module Echo {
  import opened Bytes
  import opened Text
  import opened LineDiscipline

  /** Enter has its own branch, and no other key is a newline in the scancode tables. A key without a
      character is a NUL there; it is stored in the line like any other. */
  predicate NoNewline(keys: seq<Key>) {
    forall i :: 0 <= i < |keys| && keys[i].Char? ==> !IsNewline(keys[i].c)
  }

  /** What kbrd_int sends to the screen: the characters that the line has room for, and a backspace
      for each that it removes. */
  function Strokes(keys: seq<Key>): seq<Stroke> {
    if keys == [] then []
    else
      var n := |keys| - 1;
      var line := EditFold(keys[..n]);
      Strokes(keys[..n]) +
      match keys[n]
      case Backspace => if line == [] then [] else [Erase]
      case Char(c) => if |line| < KBRD_BUF_LENGTH - 1 then [Type(c)] else []
  }

  /** The position as an index into the text. */
  function Place(d: Doc): int {
    NUM_COLS * d.row + d.col
  }

  /** Text e is text d with the line written at d's position, which now lies behind the line, and
      blanks from there on. */
  ghost predicate Continues(d: Doc, e: Doc, line: seq<byte>)
    requires GoodDoc(d)
  {
    && GoodDoc(e) && Place(e) == Place(d) + |line| < |e.cells|
    && e.cells == d.cells[..Place(d)] + line + Spaces(|e.cells| - Place(e))
    && |e.cells| <= Max(|d.cells|, Place(d) + KBRD_BUF_LENGTH + NUM_COLS)
  }

  function Max(x: int, y: int): int {
    if x < y then y else x
  }

  lemma PlaceInText(d: Doc)
    requires GoodDoc(d)
    ensures 0 <= Place(d) < |d.cells| && |d.cells| - CELLS <= Place(d)
  {
    assert |d.cells| == NUM_COLS * Rows(d);
  }

  /** Typing a printable character moves one place on; only at the end of the text a row is added. */
  lemma PutAtPlace(e: Doc, c: byte)
    requires GoodDoc(e) && c != 0 && !IsNewline(c)
    ensures 0 <= Place(e) < |e.cells|
    ensures var f := DocPut(e, c);
      && GoodDoc(f) && Place(f) == Place(e) + 1
      && f.cells == e.cells[Place(e) := c] + Spaces(if Place(f) == |e.cells| then NUM_COLS else 0)
  {
    PlaceInText(e);
    assert |e.cells| == NUM_COLS * Rows(e);
    var cells := e.cells[Place(e) := c];
    assert cells + [] == cells;
  }

  lemma BackAtPlace(e: Doc)
    requires GoodDoc(e) && Place(e) > 0 && Place(e) > |e.cells| - CELLS
    ensures !(e.col == 0 && e.row == 0)
    ensures var f := DocBack(e); GoodDoc(f) && Place(f) == Place(e) - 1 && f.cells == e.cells[Place(f) := SPACE]
  {
    assert |e.cells| == NUM_COLS * Rows(e);
  }

  lemma TypeContinues(d: Doc, e: Doc, line: seq<byte>, c: byte)
    requires GoodDoc(d) && Continues(d, e, line) && |line| < KBRD_BUF_LENGTH - 1 && c != 0 && !IsNewline(c)
    ensures Continues(d, DocPut(e, c), line + [c])
  {
    PutAtPlace(e, c);
    PlaceInText(d);
    var f := DocPut(e, c);
    PlaceInText(f);
    assert f.cells == d.cells[..Place(d)] + (line + [c]) + Spaces(|f.cells| - Place(f));
  }

  lemma EraseContinues(d: Doc, e: Doc, line: seq<byte>)
    requires GoodDoc(d) && Continues(d, e, line) && line != [] && |line| < KBRD_BUF_LENGTH
    ensures !(e.col == 0 && e.row == 0) && Place(e) > |e.cells| - CELLS
    ensures Continues(d, DocBack(e), line[..|line| - 1])
  {
    PlaceInText(d);
    BackAtPlace(e);
    var f := DocBack(e);
    assert f.cells == d.cells[..Place(d)] + line[..|line| - 1] + Spaces(|f.cells| - Place(f));
  }

  // ---------- what backspace undoes ----------

  /** If key i is a backspace, it finds the line empty or removes a character that is on the screen. */
  predicate ErasesVisible(keys: seq<Key>, i: int)
    requires 0 <= i < |keys|
  {
    keys[i] == Backspace ==> var line := EditFold(keys[..i]); line == [] || line[|line| - 1] != 0
  }

  predicate NeverErasesNul(keys: seq<Key>) {
    forall i :: 0 <= i < |keys| ==> ErasesVisible(keys, i)
  }

  /** How far the keys move the cursor. */
  function Moves(keys: seq<Key>): int {
    if keys == [] then 0
    else
      var n := |keys| - 1;
      var line := EditFold(keys[..n]);
      Moves(keys[..n]) +
      match keys[n]
      case Backspace => if line == [] then 0 else -1
      case Char(c) => if |line| < KBRD_BUF_LENGTH - 1 && c != 0 then 1 else 0
  }

  lemma NeverErasesNulStep(keys: seq<Key>)
    requires keys != []
    ensures var n := |keys| - 1;
      NeverErasesNul(keys) <==> NeverErasesNul(keys[..n]) && ErasesVisible(keys, n)
  {
    hide ErasesVisible;
    var n := |keys| - 1;
    forall i | 0 <= i < n
      ensures ErasesVisible(keys[..n], i) <==> ErasesVisible(keys, i)
    {
      SameErasure(keys, n, i);
    }
  }

  lemma SameErasure(keys: seq<Key>, n: int, i: int)
    requires 0 <= i < n <= |keys|
    ensures ErasesVisible(keys[..n], i) <==> ErasesVisible(keys, i)
  {
    assert keys[..n][..i] == keys[..i];
  }

  /** The cursor never ends up further than the visible line, and at its end exactly when no backspace
      has removed a NUL. */
  lemma {:induction false} MovesIff(keys: seq<Key>)
    ensures Moves(keys) <= |Visible(EditFold(keys))|
    ensures Moves(keys) == |Visible(EditFold(keys))| <==> NeverErasesNul(keys)
    decreases |keys|
  {
    if keys != [] {
      var n := |keys| - 1;
      var line := EditFold(keys[..n]);
      MovesIff(keys[..n]);
      NeverErasesNulStep(keys);
      match keys[n]
      case Char(c) => VisibleGrows(line, c);
      case Backspace =>
        if line != [] {
          VisibleShrinks(line);
        }
    }
  }

  lemma VisibleShrinks(line: seq<byte>)
    requires line != []
    ensures var rest := line[..|line| - 1];
      Visible(line) == Visible(rest) + if line[|line| - 1] == 0 then [] else [line[|line| - 1]]
  {
  }

  // ---------- the page under any keys ----------

  lemma StrokesStep(keys: seq<Key>)
    requires keys != []
    ensures var n := |keys| - 1; var line := EditFold(keys[..n]);
      Strokes(keys) == match keys[n]
        case Backspace => if line == [] then Strokes(keys[..n]) else Strokes(keys[..n]) + [Erase]
        case Char(c) => if |line| < KBRD_BUF_LENGTH - 1 then Strokes(keys[..n]) + [Type(c)] else Strokes(keys[..n])
  {
    assert Strokes(keys[..|keys| - 1]) + [] == Strokes(keys[..|keys| - 1]);
  }

  lemma DocAfterStep(d: Doc, ks: seq<Stroke>, k: Stroke)
    requires GoodDoc(d)
    ensures var e := DocAfter(d, ks);
      (k == Erase ==> !(e.col == 0 && e.row == Rows(e) - NUM_ROWS)) ==>
        !(k == Erase && e.col == 0 && e.row == 0) && DocAfter(d, ks + [k]) == DocStrike(e, k)
  {
    assert (ks + [k])[..|ks|] == ks;
  }

  /** One stroke, anywhere but in the corner, moves the place by one, unless it types a NUL. */
  lemma StrokeMoves(e: Doc, k: Stroke)
    requires GoodDoc(e) && (k.Type? ==> !IsNewline(k.c))
    requires k == Erase ==> Place(e) > |e.cells| - CELLS
    ensures !(k == Erase && e.col == 0 && e.row == 0)
    ensures GoodDoc(DocStrike(e, k))
    ensures Place(DocStrike(e, k)) == Place(e) + if k == Erase then -1 else if k.c == 0 then 0 else 1
  {
    PlaceInText(e);
    match k
    case Type(c) => if c != 0 { PutAtPlace(e, c); }
    case Erase => BackAtPlace(e);
  }

  /** Off the corner of the page is off the first cell of the shown text. */
  lemma CornerIff(s: Screen, e: Doc)
    requires Shows(s, e)
    ensures s.x == 0 && s.y == 0 <==> Place(e) == |e.cells| - CELLS
    ensures s.x == 0 && s.y == 0 <==> e.col == 0 && e.row == Rows(e) - NUM_ROWS
  {
    assert |e.cells| == NUM_COLS * Rows(e);
  }

  /** Whatever keys are pressed, as long as no backspace meets the corner of the page, the cursor has
      moved by Moves(keys). */
  lemma {:induction false} KeysMoveThePlace(s: Screen, d: Doc, keys: seq<Key>, ss: seq<Screen>)
    requires Shows(s, d) && NoNewline(keys) && Strikes(ss, Strokes(keys)) && ss[0] == s
    ensures Shows(ss[|ss| - 1], DocAfter(d, Strokes(keys)))
    ensures Place(DocAfter(d, Strokes(keys))) == Place(d) + Moves(keys)
    decreases |keys|
  {
    hide DocPut, DocBack, Put, Back, DocAfter;
    PageShowsStrokes(ss, Strokes(keys), d);
    if keys == [] {
      NothingTyped(d);
    } else {
      var n := |keys| - 1;
      var ks := Strokes(keys[..n]);
      StrokesStep(keys);
      if Strokes(keys) == ks {
        KeysMoveThePlace(s, d, keys[..n], ss);
      } else {
        var k := Strokes(keys)[|ks|];
        assert Strikes(ss[..|ks| + 1], ks) && ss[..|ks| + 1][0] == s;
        KeysMoveThePlace(s, d, keys[..n], ss[..|ks| + 1]);
        var e := DocAfter(d, ks);
        CornerIff(ss[|ks|], e);
        PlaceInText(e);
        DocAfterStep(d, ks, k);
        StrokeMoves(e, k);
      }
    }
  }

  lemma NothingTyped(d: Doc)
    requires GoodDoc(d)
    ensures DocAfter(d, []) == d
  {
  }

  /** While no backspace removes a NUL, wherever on the page the line starts and whether or not it
      wraps or scrolls, the page shows the text before it and its visible characters, the cursor stands
      behind them, and backspace never meets the top-left corner. */
  lemma {:induction false} PageShowsTheEditedLine(s: Screen, d: Doc, keys: seq<Key>) returns (ss: seq<Screen>)
    requires Shows(s, d) && Continues(d, d, []) && NoNewline(keys) && NeverErasesNul(keys)
    ensures Strikes(ss, Strokes(keys)) && ss[0] == s
    ensures var e := DocAfter(d, Strokes(keys));
      Continues(d, e, Visible(EditFold(keys))) && Shows(ss[|ss| - 1], e)
    decreases |keys|
  {
    hide DocPut, DocBack, Put, Back, DocAfter;
    if keys == [] {
      ss := [s];
      NothingTyped(d);
    } else {
      var n := |keys| - 1;
      NeverErasesNulStep(keys);
      ss := PageShowsTheEditedLine(s, d, keys[..n]);
      StrokesStep(keys);
      ss := OneMoreKey(d, keys, ss);
    }
  }

  lemma OneMoreKey(d: Doc, keys: seq<Key>, ss0: seq<Screen>) returns (ss: seq<Screen>)
    requires GoodDoc(d) && keys != [] && NoNewline(keys) && NeverErasesNul(keys)
    requires Strikes(ss0, Strokes(keys[..|keys| - 1]))
    requires var e := DocAfter(d, Strokes(keys[..|keys| - 1]));
      Continues(d, e, Visible(EditFold(keys[..|keys| - 1]))) && Shows(ss0[|ss0| - 1], e)
    ensures Strikes(ss, Strokes(keys)) && ss[0] == ss0[0]
    ensures var e := DocAfter(d, Strokes(keys));
      Continues(d, e, Visible(EditFold(keys))) && Shows(ss[|ss| - 1], e)
  {
    hide DocPut, DocBack, Put, Back, DocAfter, Shows, Continues;
    var n := |keys| - 1;
    var line, ks := EditFold(keys[..n]), Strokes(keys[..n]);
    var s, e := ss0[|ss0| - 1], DocAfter(d, ks);
    NeverErasesNulStep(keys);
    StrokesStep(keys);
    if Strokes(keys) == ks {
      ss := ss0;
    } else {
      var k := Strokes(keys)[|ks|];
      KeyContinues(d, e, line, s, k);
      CornerIff(s, e);
      DocAfterStep(d, ks, k);
      ss := Struck(ss0, ks, k);
    }
  }

  /** One key that the line accepts. */
  lemma KeyContinues(d: Doc, e: Doc, line: seq<byte>, s: Screen, k: Stroke)
    requires GoodDoc(d) && Continues(d, e, Visible(line)) && Shows(s, e) && |line| < KBRD_BUF_LENGTH
    requires match k
      case Type(c) => |line| < KBRD_BUF_LENGTH - 1 && !IsNewline(c)
      case Erase => line != [] && line[|line| - 1] != 0
    ensures CanStrike(s, k) && !(k == Erase && e.col == 0 && e.row == 0)
    ensures Shows(Strike(s, k), DocStrike(e, k))
    ensures Continues(d, DocStrike(e, k), Visible(if k.Type? then line + [k.c] else line[..|line| - 1]))
  {
    match k
    case Type(c) =>
      PutRefines(s, e, c);
      VisibleGrows(line, c);
      if c != 0 {
        TypeContinues(d, e, Visible(line), c);
      } else {
        assert Visible(line) + [] == Visible(line);
      }
    case Erase =>
      VisibleShrinks(line);
      EraseContinues(d, e, Visible(line));
      NotInCorner(s, e);
      BackRefines(s, e);
      var rest := Visible(line[..|line| - 1]);
      assert Visible(line)[..|Visible(line)| - 1] == rest;
  }

  /** Exactly then: on every page and under any keys that never meet its corner with a backspace, what
      is shown is the text before the line and its visible characters, with the cursor behind them, if
      and only if no backspace has removed a NUL. */
  lemma PageShowsTheLineIff(s: Screen, d: Doc, keys: seq<Key>, ss: seq<Screen>)
    requires Shows(s, d) && Continues(d, d, []) && NoNewline(keys) && Strikes(ss, Strokes(keys)) && ss[0] == s
    ensures var e := DocAfter(d, Strokes(keys));
      Shows(ss[|ss| - 1], e) && (Continues(d, e, Visible(EditFold(keys))) <==> NeverErasesNul(keys))
  {
    hide DocAfter, Strikes;
    KeysMoveThePlace(s, d, keys, ss);
    MovesIff(keys);
    if NeverErasesNul(keys) {
      var other := PageShowsTheEditedLine(s, d, keys);
    }
  }

  // ---------- a key without a character ----------

  lemma NulThenBackspace()
    ensures var keys := [Char(0), Backspace]; Strokes(keys) == [Type(0), Erase] && EditFold(keys) == []
    ensures !NeverErasesNul([Char(0), Backspace])
  {
    var keys := [Char(0), Backspace];
    assert keys[..1] == [Char(0)] && keys[..1][..0] == [];
    assert EditFold(keys[..1]) == [0] && Strokes(keys[..1]) == [Type(0)];
    assert !ErasesVisible(keys, 1);
  }

  lemma EraseAfterNul(d: Doc, ks: seq<Stroke>)
    requires GoodDoc(d) && ks == [Type(0)] + [Erase] && !(d.col == 0 && d.row == Rows(d) - NUM_ROWS)
    ensures !(d.col == 0 && d.row == 0) && DocAfter(d, ks) == DocBack(d)
  {
    hide DocAfter, DocBack;
    var one: seq<Stroke> := [Type(0)];
    assert [] + one == one;
    NothingTyped(d);
    DocAfterStep(d, [], Type(0));
    DocAfterStep(d, one, Erase);
  }

  /** A key without a character and a backspace: the line is empty again, but the character before it
      on the screen is gone, and the cursor stands there. */
  lemma BackspaceEatsThePrompt(s: Screen, d: Doc)
    requires Shows(s, d) && !(s.x == 0 && s.y == 0)
    ensures var keys := [Char(0), Backspace]; var e := DocAfter(d, Strokes(keys));
      && EditFold(keys) == [] && Place(e) == Place(d) - 1 && 0 <= Place(e) < |d.cells|
      && e.cells == d.cells[Place(e) := SPACE]
  {
    hide DocAfter, Strokes, EditFold;
    NulThenBackspace();
    CornerIff(s, d);
    PlaceInText(d);
    assert [Type(0)] + [Erase] == [Type(0), Erase];
    EraseAfterNul(d, [Type(0), Erase]);
    BackAtPlace(d);
  }

  /** On a fresh page the same two keys meet the top-left corner: no page can follow. */
  lemma BackspaceLeavesThePage(ss: seq<Screen>)
    requires ss != [] && ss[0] == BLANK
    ensures !Strikes(ss, Strokes([Char(0), Backspace]))
  {
    hide Strokes;
    NulThenBackspace();
    NoPageFollows(ss, [Type(0), Erase]);
  }

  lemma NoPageFollows(ss: seq<Screen>, ks: seq<Stroke>)
    requires ss != [] && ss[0] == BLANK && |ks| == 2 && ks[0] == Type(0) && ks[1] == Erase
    ensures !Strikes(ss, ks)
  {
    assert Strike(BLANK, ks[0]) == BLANK && !CanStrike(BLANK, ks[1]);
    if |ss| == 3 && ss[1] == BLANK {
      assert !CanStrike(ss[1], ks[1]);
    }
  }

  /** When the next backspace, if the line takes it, meets the corner. */
  lemma BackspaceMeetsTheCornerIff(s: Screen, d: Doc, keys: seq<Key>, ss: seq<Screen>)
    requires Shows(s, d) && NoNewline(keys) && Strikes(ss, Strokes(keys)) && ss[0] == s
    ensures !CanStrike(ss[|ss| - 1], Erase) <==>
      Place(d) + Moves(keys) == |DocAfter(d, Strokes(keys)).cells| - CELLS
  {
    hide DocAfter, Strokes;
    KeysMoveThePlace(s, d, keys, ss);
    CornerIff(ss[|ss| - 1], DocAfter(d, Strokes(keys)));
  }

  // ---------- behind any output ----------

  lemma PutKeepsBlanks(d: Doc, c: byte)
    requires GoodDoc(d) && Continues(d, d, [])
    ensures GoodDoc(DocPut(d, c)) && Continues(DocPut(d, c), DocPut(d, c), [])
  {
    PlaceInText(d);
    var e := DocPut(d, c);
    if IsNewline(c) {
      assert |d.cells| == NUM_COLS * Rows(d);
      assert forall k :: Place(d) <= k < |d.cells| ==> d.cells[k] == SPACE;
    } else if c != 0 {
      PutAtPlace(d, c);
    }
    if c != 0 {
      PlaceInText(e);
      assert forall k :: Place(e) <= k < |e.cells| ==> e.cells[k] == SPACE;
      assert e.cells == e.cells[..Place(e)] + [] + Spaces(|e.cells| - Place(e));
    }
  }

  /** Whatever has been printed on a fresh page, the text is blank behind the cursor: so a line may be
      edited there. */
  lemma {:induction false} OutputLeavesBlanks(text: seq<byte>)
    ensures var d := DocOf(Wrapped(text)); GoodDoc(d) && Continues(d, d, [])
    decreases |text|
  {
    hide DocOf, Wrapped, DocPut;
    if text == [] {
      NoOutput();
    } else {
      var n := |text| - 1;
      OutputLeavesBlanks(text[..n]);
      assert text == text[..n] + [text[n]];
      WrappedGrows(text[..n], text[n]);
      DocOfGrows(Wrapped(text[..n]), text[n]);
      PutKeepsBlanks(DocOf(Wrapped(text[..n])), text[n]);
    }
  }

  lemma NoOutput()
    ensures var d := DocOf(Wrapped([])); GoodDoc(d) && Continues(d, d, [])
  {
    hide DocOf;
    assert Visible([]) == [];
    OneEmptyRow(Wrapped([]));
    BlankShowsNothing();
    BlankIsBlank(DocOf(Wrapped([])));
  }

  lemma BlankIsBlank(d: Doc)
    requires Shows(BLANK, d) && |d.cells| == CELLS
    ensures Continues(d, d, [])
  {
    assert d.cells == Spaces(CELLS);
    assert d.cells == d.cells[..Place(d)] + [] + Spaces(|d.cells| - Place(d));
  }

  /** A fresh page, any output, and then a line in which no backspace removes a NUL: the page shows the
      last 25 rows of the wrapped output followed by the visible line. */
  lemma PageShowsOutputAndLine(text: seq<byte>, keys: seq<Key>) returns (ss: seq<Screen>, e: Doc)
    requires NoNewline(keys) && NeverErasesNul(keys)
    ensures Strikes(ss, Strokes(keys)) && ss[0] == PutAll(BLANK, text) && Shows(ss[|ss| - 1], e)
    ensures GoodDoc(DocOf(Wrapped(text))) && Continues(DocOf(Wrapped(text)), e, Visible(EditFold(keys)))
  {
    var d := DocOf(Wrapped(text));
    PageIsTailOfWrappedText(text);
    OutputLeavesBlanks(text);
    ss := PageShowsTheEditedLine(PutAll(BLANK, text), d, keys);
    e := DocAfter(d, Strokes(keys));
  }

  lemma NotInCorner(s: Screen, e: Doc)
    requires Shows(s, e) && Place(e) > |e.cells| - CELLS
    ensures !(s.x == 0 && s.y == 0)
  {
    assert |e.cells| == NUM_COLS * Rows(e);
  }

  lemma Struck(ss: seq<Screen>, ks: seq<Stroke>, k: Stroke) returns (more: seq<Screen>)
    requires Strikes(ss, ks) && CanStrike(ss[|ss| - 1], k)
    ensures Strikes(more, ks + [k]) && more[0] == ss[0] && more[|more| - 1] == Strike(ss[|ss| - 1], k)
  {
    more := ss + [Strike(ss[|ss| - 1], k)];
  }
}
