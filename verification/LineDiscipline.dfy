/** One terminal's keyboard buffer: editing keys, Enter, and terminal_read. */
module LineDiscipline {
  import opened Bytes
  import opened MemoryOps

  const KBRD_BUF_LENGTH: int := 128

  datatype Key = Char(c: byte) | Backspace

  /** kbrd_buf, line_marker, kbrd_buf_length, is_enter and read_lock of the terminal. */
  datatype Line = Line(buf: seq<byte>, marker: int, length: int, isEnter: bool, readLock: bool)

  ghost predicate InBounds(l: Line) {
    |l.buf| == KBRD_BUF_LENGTH && 0 <= l.marker <= KBRD_BUF_LENGTH && 0 <= l.length < KBRD_BUF_LENGTH
  }

  // ---------- the steps ----------

  /** The byte that a key stores lies in the buffer. */
  predicate KeyStaysInside(l: Line, k: Key) {
    match k
    case Backspace => l.length > 0 ==> 0 <= l.marker - 1 < KBRD_BUF_LENGTH
    case Char(_) => l.length < KBRD_BUF_LENGTH - 1 ==> 0 <= l.marker < KBRD_BUF_LENGTH
  }

  function Press(l: Line, k: Key): Line
    requires InBounds(l) && KeyStaysInside(l, k)
  {
    match k
    case Backspace =>
      if l.length > 0 then l.(buf := l.buf[l.marker - 1 := 0], length := l.length - 1, marker := l.marker - 1) else l
    case Char(c) =>
      if l.length < KBRD_BUF_LENGTH - 1 then
        l.(buf := l.buf[l.marker := c], length := l.length + 1, marker := l.marker + 1)
      else l
  }

  function Enter(l: Line): Line {
    if l.readLock then l.(isEnter := true, length := 0)
    else l.(isEnter := true, length := 0, buf := Zeros(KBRD_BUF_LENGTH), marker := 0)
  }

  /** The part of terminal_read before the wait for Enter. */
  function Start(l: Line): Line {
    l.(readLock := true, isEnter := false)
  }

  /** How much of the buffer terminal_read keeps. */
  function Kept(marker: int, nbytes: int): int {
    if marker - nbytes < 0 then 0 else marker - (nbytes - 1)
  }

  /** How many bytes terminal_read returns. */
  function Width(nbytes: int): int {
    if nbytes < KBRD_BUF_LENGTH then nbytes else KBRD_BUF_LENGTH
  }

  /** What terminal_read moves and clears lies in the buffer. */
  predicate ReadStaysInside(marker: int, nbytes: int) {
    var n, kept := Width(nbytes), Kept(marker, nbytes);
    0 <= n - 1 && n - 1 + kept <= KBRD_BUF_LENGTH && 0 <= kept && kept + n <= KBRD_BUF_LENGTH
  }

  /** A read of at least one byte stays inside exactly when the buffer is not full to its last byte, or
      the read asks for more than the buffer holds. */
  lemma ReadStaysInsideIff(marker: int, nbytes: int)
    requires 0 <= marker <= KBRD_BUF_LENGTH
    ensures ReadStaysInside(marker, nbytes) <==> nbytes >= 1 && (marker < KBRD_BUF_LENGTH || nbytes > KBRD_BUF_LENGTH)
  {
  }

  /** What terminal_read delivers once Enter has been pressed. */
  function LineRead(l: Line, nbytes: int): seq<byte>
    requires InBounds(l) && nbytes >= 1
  {
    l.buf[..Width(nbytes) - 1] + [NEWLINE]
  }

  /** The part of terminal_read after the wait. */
  function Finish(l: Line, nbytes: int): (r: Line)
    requires InBounds(l) && ReadStaysInside(l.marker, nbytes)
    ensures InBounds(r)
  {
    var n, kept := Width(nbytes), Kept(l.marker, nbytes);
    var moved := Written(l.buf, 0, l.buf[n - 1..n - 1 + kept]);
    Line(Written(moved, kept, Zeros(n)), kept, l.length, false, false)
  }

  // ---------- in place ----------

  class Keyboard {
    const kbrdBuf: array<byte>
    var lineMarker: int
    var kbrdBufLength: int
    var isEnter: bool
    var readLock: bool

    ghost predicate Valid()
      reads this, kbrdBuf
    {
      kbrdBuf.Length == KBRD_BUF_LENGTH && InBounds(State())
    }

    ghost function State(): Line
      reads this, kbrdBuf
    {
      Line(kbrdBuf[..], lineMarker, kbrdBufLength, isEnter, readLock)
    }

    constructor ()
      ensures Valid() && fresh(kbrdBuf) && State() == Line(Zeros(KBRD_BUF_LENGTH), 0, 0, false, false)
    {
      kbrdBuf := new byte[KBRD_BUF_LENGTH](_ => 0);
      lineMarker, kbrdBufLength, isEnter, readLock := 0, 0, false, false;
      new;
      assert kbrdBuf[..] == Zeros(KBRD_BUF_LENGTH);
    }

    /** The editing branches of kbrd_int. */
    method PressKey(k: Key)
      requires Valid() && KeyStaysInside(State(), k)
      modifies this, kbrdBuf
      ensures Valid() && State() == Press(old(State()), k)
    {
      match k {
        case Backspace =>
          if kbrdBufLength > 0 {
            kbrdBuf[lineMarker - 1] := 0;
            kbrdBufLength := kbrdBufLength - 1;
            lineMarker := lineMarker - 1;
          }
        case Char(c) =>
          if kbrdBufLength < KBRD_BUF_LENGTH - 1 {
            kbrdBuf[lineMarker] := c;
            lineMarker := lineMarker + 1;
            kbrdBufLength := kbrdBufLength + 1;
          }
      }
    }

    /** The Enter branch of kbrd_int. */
    method PressEnter()
      requires Valid()
      modifies this, kbrdBuf
      ensures Valid() && State() == Enter(old(State()))
      ensures isEnter && kbrdBufLength == 0
    {
      isEnter := true;
      kbrdBufLength := 0;
      if !readLock {
        Memset(kbrdBuf, 0, 0, KBRD_BUF_LENGTH);
        lineMarker := 0;
        assert kbrdBuf[..] == Zeros(KBRD_BUF_LENGTH);
      }
    }

    method StartRead()
      requires Valid()
      modifies this
      ensures Valid() && State() == Start(old(State()))
      ensures readLock && !isEnter
    {
      readLock := true;
      isEnter := false;
    }

    method FinishRead(nbytes: int) returns (delivered: seq<byte>, r: int)
      requires Valid() && readLock && isEnter && ReadStaysInside(lineMarker, nbytes)
      modifies this, kbrdBuf
      ensures Valid() && State() == Finish(old(State()), nbytes)
      ensures delivered == LineRead(old(State()), nbytes) && r == |delivered| == Min(nbytes, 128)
      ensures !readLock && !isEnter
    {
      hide Written;
      var writeBytes := if lineMarker - nbytes < 0 then 0 else lineMarker - (nbytes - 1);
      var n := if nbytes < KBRD_BUF_LENGTH then nbytes else KBRD_BUF_LENGTH;
      delivered := CopyOut(n);
      Shift(n, writeBytes);
      lineMarker := writeBytes;
      readLock := false;
      isEnter := false;
      r := if nbytes < KBRD_BUF_LENGTH then nbytes else KBRD_BUF_LENGTH;
    }

    /** Move what stays to the start of the buffer and clear what follows. */
    method Shift(n: nat, kept: nat)
      requires kbrdBuf.Length == KBRD_BUF_LENGTH
      requires 1 <= n && n - 1 + kept <= KBRD_BUF_LENGTH && kept + n <= KBRD_BUF_LENGTH
      modifies kbrdBuf
      ensures kbrdBuf[..] ==
        Written(Written(old(kbrdBuf[..]), 0, old(kbrdBuf[..])[n - 1..n - 1 + kept]), kept, Zeros(n))
    {
      ghost var b := kbrdBuf[..];
      assert kbrdBuf[n - 1..n - 1 + kept] == b[n - 1..n - 1 + kept];
      Memmove(kbrdBuf, 0, n - 1, kept);
      Memset(kbrdBuf, kept, 0, n);
      assert Filler(0, n) == Zeros(n);
    }

    /** The copying loop of terminal_read, and the newline behind it. */
    method CopyOut(n: nat) returns (out: seq<byte>)
      requires Valid() && 1 <= n <= KBRD_BUF_LENGTH
      ensures out == kbrdBuf[..n - 1] + [NEWLINE]
    {
      var readBuf := new byte[KBRD_BUF_LENGTH](_ => 0);
      var i := 0;
      while i < n - 1
        invariant 0 <= i <= n - 1
        invariant forall k :: 0 <= k < i ==> readBuf[k] == kbrdBuf[k]
        modifies readBuf
      {
        readBuf[i] := kbrdBuf[i];
        i := i + 1;
      }
      readBuf[n - 1] := NEWLINE;
      out := readBuf[..n];
    }
  }

  // ---------- whole runs ----------

  datatype Event = KeyDown(k: Key) | EnterDown | ReadStarts | ReadEnds(nbytes: int)

  /** Terminal reads follow each other, and each waits for Enter. */
  predicate Enabled(isEnter: bool, readLock: bool, e: Event) {
    match e
    case ReadStarts => !readLock
    case ReadEnds(nbytes) => readLock && isEnter && nbytes >= 1
    case _ => true
  }

  predicate StaysInside(l: Line, e: Event) {
    match e
    case KeyDown(k) => KeyStaysInside(l, k)
    case ReadEnds(nbytes) => ReadStaysInside(l.marker, nbytes)
    case _ => true
  }

  function Step(l: Line, e: Event): (r: Line)
    requires InBounds(l) && StaysInside(l, e)
    ensures InBounds(r)
  {
    match e
    case KeyDown(k) => Press(l, k)
    case EnterDown => Enter(l)
    case ReadStarts => Start(l)
    case ReadEnds(nbytes) => Finish(l, nbytes)
  }

  /** The events es can follow each other from an empty line, and none of them has stored anything
      outside the buffer. */
  ghost predicate IsRun(es: seq<Event>)
    decreases |es|, 0
  {
    es == [] ||
    var n := |es| - 1;
    IsRun(es[..n]) && var l := LineAfter(es[..n]); Enabled(l.isEnter, l.readLock, es[n]) && StaysInside(l, es[n])
  }

  ghost function LineAfter(es: seq<Event>): (l: Line)
    requires IsRun(es)
    ensures InBounds(l)
    decreases |es|, 1
  {
    if es == [] then Line(Zeros(KBRD_BUF_LENGTH), 0, 0, false, false)
    else Step(LineAfter(es[..|es| - 1]), es[|es| - 1])
  }

  /** What the buffer stands for: the text that no read has delivered, and how many of its last
      characters backspace may still remove. */
  datatype Editor = Editor(text: seq<byte>, erasable: int, isEnter: bool, readLock: bool)

  function Edit(d: Editor, e: Event): Editor {
    match e
    case KeyDown(Char(c)) =>
      if d.erasable < KBRD_BUF_LENGTH - 1 then d.(text := d.text + [c], erasable := d.erasable + 1) else d
    case KeyDown(Backspace) =>
      if d.erasable > 0 && d.text != [] then d.(text := d.text[..|d.text| - 1], erasable := d.erasable - 1) else d
    case EnterDown => d.(text := if d.readLock then d.text else [], erasable := 0, isEnter := true)
    case ReadStarts => d.(isEnter := false, readLock := true)
    case ReadEnds(nbytes) => d.(text := Rest(d.text, nbytes), isEnter := false, readLock := false)
  }

  /** What stays of a text after a read. */
  function Rest(text: seq<byte>, nbytes: int): seq<byte> {
    if 1 <= nbytes <= |text| then text[nbytes - 1..] else []
  }

  /** What a read delivers of a text: its beginning, padded with NUL, and a newline. */
  function Answer(text: seq<byte>, nbytes: int): seq<byte>
    requires nbytes >= 1
  {
    (text + Zeros(KBRD_BUF_LENGTH))[..Width(nbytes) - 1] + [NEWLINE]
  }

  function Edited(es: seq<Event>): Editor {
    if es == [] then Editor([], 0, false, false) else Edit(Edited(es[..|es| - 1]), es[|es| - 1])
  }

  /** The buffer holds the text, padded with NUL, and the marker stands behind it. */
  ghost predicate Holds(l: Line, d: Editor) {
    && InBounds(l) && |d.text| <= KBRD_BUF_LENGTH
    && l.buf == d.text + Zeros(KBRD_BUF_LENGTH - |d.text|) && l.marker == |d.text|
    && l.length == d.erasable && l.isEnter == d.isEnter && l.readLock == d.readLock
  }

  /** Exactly when an event stays inside the buffer. */
  predicate HasRoom(d: Editor, e: Event) {
    match e
    case KeyDown(Char(_)) => d.erasable == KBRD_BUF_LENGTH - 1 || |d.text| < KBRD_BUF_LENGTH
    case KeyDown(Backspace) => d.erasable == 0 || d.text != []
    case ReadEnds(nbytes) => nbytes >= 1 && (|d.text| < KBRD_BUF_LENGTH || nbytes > KBRD_BUF_LENGTH)
    case _ => true
  }

  lemma HasRoomIff(l: Line, d: Editor, e: Event)
    requires Holds(l, d)
    ensures StaysInside(l, e) <==> HasRoom(d, e)
  {
    if e.ReadEnds? {
      ReadStaysInsideIff(l.marker, e.nbytes);
    }
  }

  lemma FinishHolds(l: Line, d: Editor, nbytes: int)
    requires Holds(l, d) && ReadStaysInside(l.marker, nbytes)
    ensures Holds(Finish(l, nbytes), Edit(d, ReadEnds(nbytes)))
  {
    hide Written;
    ReadStaysInsideIff(l.marker, nbytes);
    RestStays(l.buf, d.text, nbytes);
  }

  /** The bytes that a read leaves. */
  lemma RestStays(buf: seq<byte>, text: seq<byte>, nbytes: int)
    requires |buf| == KBRD_BUF_LENGTH && |text| <= KBRD_BUF_LENGTH && ReadStaysInside(|text|, nbytes)
    requires buf == text + Zeros(KBRD_BUF_LENGTH - |text|)
    ensures var n, kept, rest := Width(nbytes), Kept(|text|, nbytes), Rest(text, nbytes);
      kept == |rest|
      && Written(Written(buf, 0, buf[n - 1..n - 1 + kept]), kept, Zeros(n)) == rest + Zeros(KBRD_BUF_LENGTH - |rest|)
  {
    hide Written;
    ReadStaysInsideIff(|text|, nbytes);
    var n, kept, rest := Width(nbytes), Kept(|text|, nbytes), Rest(text, nbytes);
    assert buf[n - 1..n - 1 + kept] == rest;
    MovedAndCleared(buf, |text|, rest, n);
  }

  /** The rest at the start of the buffer, and NULs over what it moved from. */
  lemma MovedAndCleared(buf: seq<byte>, used: nat, rest: seq<byte>, n: nat)
    requires |rest| + n <= |buf| && used <= |rest| + n
    requires forall i :: used <= i < |buf| ==> buf[i] == 0
    ensures Written(Written(buf, 0, rest), |rest|, Zeros(n)) == rest + Zeros(|buf| - |rest|)
  {
  }

  lemma StepHolds(l: Line, d: Editor, e: Event)
    requires Holds(l, d) && StaysInside(l, e)
    ensures Holds(Step(l, e), Edit(d, e))
  {
    match e
    case KeyDown(k) => PressHolds(l, d, k);
    case EnterDown =>
    case ReadStarts =>
    case ReadEnds(nbytes) => FinishHolds(l, d, nbytes);
  }

  lemma PressHolds(l: Line, d: Editor, k: Key)
    requires Holds(l, d) && KeyStaysInside(l, k)
    ensures Holds(Press(l, k), Edit(d, KeyDown(k)))
  {
  }

  /** In every run of keys, Enters and reads of any size the buffer holds the editor's text, and what
      the next event stores lies in the buffer exactly when the text leaves room for it. */
  lemma {:induction false} RunIsEdited(es: seq<Event>, e: Event)
    requires IsRun(es)
    ensures Holds(LineAfter(es), Edited(es))
    ensures StaysInside(LineAfter(es), e) <==> HasRoom(Edited(es), e)
    decreases |es|
  {
    if es != [] {
      var n := |es| - 1;
      RunIsEdited(es[..n], es[n]);
      StepHolds(LineAfter(es[..n]), Edited(es[..n]), es[n]);
    }
    HasRoomIff(LineAfter(es), Edited(es), e);
  }

  /** Each read, of any size, delivers the beginning of the text, and the rest of it stays. */
  lemma ReadDeliversTheText(es: seq<Event>, nbytes: int)
    requires IsRun(es + [ReadEnds(nbytes)])
    ensures nbytes >= 1 && IsRun(es) && LineRead(LineAfter(es), nbytes) == Answer(Edited(es).text, nbytes)
    ensures Edited(es + [ReadEnds(nbytes)]).text == Rest(Edited(es).text, nbytes)
  {
    assert (es + [ReadEnds(nbytes)])[..|es|] == es;
    RunIsEdited(es, ReadEnds(nbytes));
  }

  // ---------- stores outside the buffer ----------

  function Letters(n: nat): seq<Event> {
    if n == 0 then [] else Letters(n - 1) + [KeyDown(Char(97))]
  }

  lemma OneMore(es: seq<Event>, e: Event)
    requires IsRun(es) && Enabled(Edited(es).isEnter, Edited(es).readLock, e) && HasRoom(Edited(es), e)
    ensures IsRun(es + [e]) && Edited(es + [e]) == Edit(Edited(es), e)
  {
    assert (es + [e])[..|es|] == es;
    RunIsEdited(es, e);
  }

  lemma {:induction false} TypeLetters(es: seq<Event>, n: nat)
    requires IsRun(es) && Edited(es).erasable + n < KBRD_BUF_LENGTH && |Edited(es).text| + n <= KBRD_BUF_LENGTH
    ensures IsRun(es + Letters(n))
    ensures var d := Edited(es + Letters(n));
      |d.text| == |Edited(es).text| + n && d.erasable == Edited(es).erasable + n
      && d.isEnter == Edited(es).isEnter && d.readLock == Edited(es).readLock
  {
    hide IsRun, LineAfter, Edited;
    if n == 0 {
      assert es + Letters(0) == es;
    } else {
      TypeLetters(es, n - 1);
      LastLetter(es, n);
      OneMore(es + Letters(n - 1), KeyDown(Char(97)));
    }
  }

  lemma LastLetter(es: seq<Event>, n: nat)
    requires n > 0
    ensures es + Letters(n) == es + Letters(n - 1) + [KeyDown(Char(97))]
  {
  }

  /** A line of 100 characters and a read of one byte leave 100 characters that backspace may not
      remove; 28 more fill the buffer. */
  lemma FillTheBuffer() returns (es: seq<Event>)
    ensures IsRun(es) && |Edited(es).text| == KBRD_BUF_LENGTH && Edited(es).erasable == 28
    ensures !Edited(es).readLock
  {
    OneMore([], ReadStarts);
    es := [] + [ReadStarts];
    TypeLetters(es, 100);
    es := es + Letters(100);
    OneMore(es, EnterDown);
    es := es + [EnterDown];
    OneMore(es, ReadEnds(1));
    es := es + [ReadEnds(1)];
    TypeLetters(es, 28);
    es := es + Letters(28);
  }

  /** A run whose next key is stored behind the buffer. */
  lemma AKeyCanLeaveTheBuffer()
    ensures exists es :: IsRun(es) && !StaysInside(LineAfter(es), KeyDown(Char(97)))
  {
    var es := FillTheBuffer();
    RunIsEdited(es, KeyDown(Char(97)));
  }

  /** A run whose read clears the byte behind the buffer. */
  lemma AReadCanLeaveTheBuffer()
    ensures exists es ::
      IsRun(es) && Enabled(LineAfter(es).isEnter, LineAfter(es).readLock, ReadEnds(1))
      && !StaysInside(LineAfter(es), ReadEnds(1))
  {
    var es := FillTheBuffer();
    OneMore(es, ReadStarts);
    OneMore(es + [ReadStarts], EnterDown);
    RunIsEdited(es + [ReadStarts] + [EnterDown], ReadEnds(1));
  }

  /** A run whose backspace is stored before the buffer: a key between Enter and the end of the read
      is delivered, but still counts as one that may be removed. */
  lemma ABackspaceCanLeaveTheBuffer()
    ensures exists es :: IsRun(es) && !StaysInside(LineAfter(es), KeyDown(Backspace))
  {
    OneMore([], ReadStarts);
    var es := [] + [ReadStarts];
    OneMore(es, EnterDown);
    es := es + [EnterDown];
    OneMore(es, KeyDown(Char(97)));
    es := es + [KeyDown(Char(97))];
    OneMore(es, ReadEnds(KBRD_BUF_LENGTH));
    es := es + [ReadEnds(KBRD_BUF_LENGTH)];
    RunIsEdited(es, KeyDown(Backspace));
  }

  // ---------- reads of at least 128 bytes ----------

  /** What the editing keys make of a line. */
  function EditFold(keys: seq<Key>): (line: seq<byte>)
    ensures |line| < KBRD_BUF_LENGTH
  {
    if keys == [] then []
    else
      var t := EditFold(keys[..|keys| - 1]);
      match keys[|keys| - 1]
      case Backspace => if t == [] then [] else t[..|t| - 1]
      case Char(c) => if |t| < KBRD_BUF_LENGTH - 1 then t + [c] else t
  }

  function Typing(text: seq<byte>): (keys: seq<Key>)
    ensures |keys| == |text| && forall i :: 0 <= i < |text| ==> keys[i] == Char(text[i])
  {
    seq(|text|, i requires 0 <= i < |text| => Char(text[i]))
  }

  /** A line takes 127 characters and no more. */
  lemma {:induction false} TypedLine(text: seq<byte>)
    ensures EditFold(Typing(text)) == text[..Min(|text|, 127)]
  {
    if text != [] {
      var n := |text| - 1;
      TypedLine(text[..n]);
      assert Typing(text)[..n] == Typing(text[..n]);
      assert text == text[..n] + [text[n]];
    }
  }

  /** Backspace removes the last character of the line, and so undoes a character that the line took. */
  lemma BackspaceRemovesTheLast(keys: seq<Key>, c: byte)
    ensures var line := EditFold(keys);
      && EditFold(keys + [Backspace]) == (if line == [] then [] else line[..|line| - 1])
      && (|line| < 127 ==> EditFold(keys + [Char(c), Backspace]) == line)
  {
    hide EditFold;
    var line := EditFold(keys);
    LastKey(keys, Backspace);
    LastKey(keys, Char(c));
    LastKey(keys + [Char(c)], Backspace);
    assert keys + [Char(c)] + [Backspace] == keys + [Char(c), Backspace];
    assert (line + [c])[..|line|] == line;
  }

  lemma LastKey(keys: seq<Key>, k: Key)
    ensures var t := EditFold(keys);
      EditFold(keys + [k]) ==
        match k
        case Backspace => if t == [] then [] else t[..|t| - 1]
        case Char(c) => if |t| < KBRD_BUF_LENGTH - 1 then t + [c] else t
  {
    assert (keys + [k])[..|keys|] == keys;
  }

  /** The keys since the last Enter. */
  function KeysSinceEnter(es: seq<Event>): seq<Key> {
    if es == [] then []
    else
      match es[|es| - 1]
      case KeyDown(k) => KeysSinceEnter(es[..|es| - 1]) + [k]
      case EnterDown => []
      case ReadStarts => KeysSinceEnter(es[..|es| - 1])
      case ReadEnds(_) => KeysSinceEnter(es[..|es| - 1])
  }

  /** An event of a terminal whose reads ask for at least 128 bytes, with nothing pressed between Enter
      and the end of the read. */
  predicate Disciplined(d: Editor, e: Event) {
    && Enabled(d.isEnter, d.readLock, e)
    && (e.ReadEnds? ==> e.nbytes >= KBRD_BUF_LENGTH)
    && (e.KeyDown? || e.EnterDown? ==> !(d.readLock && d.isEnter))
  }

  ghost predicate AllDisciplined(es: seq<Event>) {
    forall i :: 0 <= i < |es| ==> Disciplined(Edited(es[..i]), es[i])
  }

  /** Between reads the text is the edited line; after Enter under a read it is the line before it. */
  ghost predicate Follows(d: Editor, es: seq<Event>) {
    if d.readLock && d.isEnter then
      es != [] && es[|es| - 1] == EnterDown && d.text == EditFold(KeysSinceEnter(es[..|es| - 1])) && d.erasable == 0
    else
      d.text == EditFold(KeysSinceEnter(es)) && d.erasable == |d.text|
  }

  lemma KeyFollows(d: Editor, k: Key, keys: seq<Key>)
    requires d.text == EditFold(keys) && d.erasable == |d.text|
    ensures Edit(d, KeyDown(k)).text == EditFold(keys + [k])
    ensures Edit(d, KeyDown(k)).erasable == |EditFold(keys + [k])|
  {
    assert (keys + [k])[..|keys|] == keys;
  }

  lemma DisciplinedPrefix(es: seq<Event>, n: nat)
    requires AllDisciplined(es) && n <= |es|
    ensures AllDisciplined(es[..n])
    ensures n < |es| ==> Disciplined(Edited(es[..n]), es[n])
  {
    forall i | 0 <= i < n
      ensures Disciplined(Edited(es[..n][..i]), es[..n][i])
    {
      assert es[..n][..i] == es[..i];
    }
  }

  lemma EventFollows(d: Editor, es: seq<Event>, e: Event)
    requires Follows(d, es) && Disciplined(d, e)
    ensures Follows(Edit(d, e), es + [e])
  {
    assert (es + [e])[..|es|] == es;
    match e
    case KeyDown(k) => KeyFollows(d, k, KeysSinceEnter(es));
    case EnterDown => assert EditFold([]) == [];
    case ReadStarts =>
    case ReadEnds(nbytes) =>
      assert KeysSinceEnter(es) == [];
      assert EditFold([]) == [];
  }

  /** Such a run never stores outside the buffer, and it holds the edited line. */
  lemma {:induction false} RunFollows(es: seq<Event>)
    requires AllDisciplined(es)
    ensures IsRun(es) && Follows(Edited(es), es)
    decreases |es|
  {
    if es != [] {
      var n := |es| - 1;
      DisciplinedPrefix(es, n);
      RunFollows(es[..n]);
      assert es == es[..n] + [es[n]];
      OneMore(es[..n], es[n]);
      EventFollows(Edited(es[..n]), es[..n], es[n]);
    }
  }

  /** Each read delivers the edited line of the keys pressed between the last two Enters, padded with
      NUL to 127 bytes, and a newline. */
  lemma ReadDeliversTheEditedLine(es: seq<Event>, nbytes: int)
    requires AllDisciplined(es + [ReadEnds(nbytes)])
    ensures IsRun(es) && nbytes >= 1 && es != [] && es[|es| - 1] == EnterDown
    ensures var line := EditFold(KeysSinceEnter(es[..|es| - 1]));
      LineRead(LineAfter(es), nbytes) == line + Zeros(127 - |line|) + [10]
  {
    var all := es + [ReadEnds(nbytes)];
    DisciplinedPrefix(all, |es|);
    assert all[..|es|] == es;
    RunFollows(es);
    RunFollows(all);
    ReadDeliversTheText(es, nbytes);
    LongAnswer(Edited(es).text, nbytes);
  }

  lemma LongAnswer(line: seq<byte>, nbytes: int)
    requires |line| < KBRD_BUF_LENGTH <= nbytes
    ensures Answer(line, nbytes) == line + Zeros(KBRD_BUF_LENGTH - 1 - |line|) + [NEWLINE]
  {
    assert (line + Zeros(KBRD_BUF_LENGTH))[..KBRD_BUF_LENGTH - 1] == line + Zeros(KBRD_BUF_LENGTH - 1 - |line|);
  }

  // ---------- reads of fewer bytes ----------

  /** A read of 1 to 127 bytes splits the text: what it delivers, without the newline, and what stays
      are the text again. */
  lemma ShortReadSplitsTheLine(text: seq<byte>, nbytes: int)
    requires |text| < KBRD_BUF_LENGTH && 1 <= nbytes < KBRD_BUF_LENGTH
    ensures var d := Answer(text, nbytes);
      && |d| == nbytes && d[nbytes - 1] == 10
      && (nbytes <= |text| ==> d[..nbytes - 1] + Rest(text, nbytes) == text)
      && (nbytes > |text| ==> Rest(text, nbytes) == [] && d[..nbytes - 1] == text + Zeros(nbytes - 1 - |text|))
  {
    var d := Answer(text, nbytes);
    assert d[..nbytes - 1] == (text + Zeros(KBRD_BUF_LENGTH))[..nbytes - 1];
  }

  /** The events of reads of the sizes ns, each completed by Enter without any other key. */
  function Reads(ns: seq<int>): seq<Event> {
    if ns == [] then [] else Reads(ns[..|ns| - 1]) + [ReadStarts, EnterDown, ReadEnds(ns[|ns| - 1])]
  }

  /** What such reads deliver one after the other, without their newlines. */
  function Pieces(text: seq<byte>, ns: seq<int>): seq<byte>
    requires forall i :: 0 <= i < |ns| ==> 1 <= ns[i] < KBRD_BUF_LENGTH
  {
    if ns == [] then []
    else
      var n := |ns| - 1;
      var d := Answer(Left(text, ns[..n]), ns[n]);
      Pieces(text, ns[..n]) + d[..|d| - 1]
  }

  /** What they leave. */
  function Left(text: seq<byte>, ns: seq<int>): seq<byte> {
    if ns == [] then text else Rest(Left(text, ns[..|ns| - 1]), ns[|ns| - 1])
  }

  /** The reads can happen one after the other, and `Left` is what stays in the buffer. */
  lemma {:induction false} ReadsLeave(es: seq<Event>, ns: seq<int>)
    requires IsRun(es) && !Edited(es).readLock && |Edited(es).text| < KBRD_BUF_LENGTH
    requires forall i :: 0 <= i < |ns| ==> 1 <= ns[i] < KBRD_BUF_LENGTH
    ensures IsRun(es + Reads(ns)) && !Edited(es + Reads(ns)).readLock
    ensures Edited(es + Reads(ns)).text == Left(Edited(es).text, ns)
    ensures |Left(Edited(es).text, ns)| < KBRD_BUF_LENGTH
    decreases |ns|
  {
    if ns == [] {
      assert es + Reads(ns) == es;
    } else {
      var n := |ns| - 1;
      ReadsLeave(es, ns[..n]);
      LastRead(es, ns);
      OneRead(es + Reads(ns[..n]), ns[n]);
    }
  }

  lemma LastRead(es: seq<Event>, ns: seq<int>)
    requires ns != []
    ensures es + Reads(ns) == es + Reads(ns[..|ns| - 1]) + [ReadStarts, EnterDown, ReadEnds(ns[|ns| - 1])]
  {
    Regroup(es, Reads(ns[..|ns| - 1]), [ReadStarts, EnterDown, ReadEnds(ns[|ns| - 1])]);
  }

  lemma Regroup(x: seq<Event>, y: seq<Event>, z: seq<Event>)
    ensures x + (y + z) == (x + y) + z
  {
  }

  lemma OneRead(es: seq<Event>, n: int)
    requires IsRun(es) && !Edited(es).readLock && |Edited(es).text| < KBRD_BUF_LENGTH && 1 <= n < KBRD_BUF_LENGTH
    ensures var r := es + [ReadStarts, EnterDown, ReadEnds(n)];
      IsRun(r) && !Edited(r).readLock && Edited(r).text == Rest(Edited(es).text, n)
  {
    OneMore(es, ReadStarts);
    OneMore(es + [ReadStarts], EnterDown);
    OneMore(es + [ReadStarts] + [EnterDown], ReadEnds(n));
    assert es + [ReadStarts, EnterDown, ReadEnds(n)] == es + [ReadStarts] + [EnterDown] + [ReadEnds(n)];
  }

  function Total(ns: seq<int>): (n: int)
    ensures (forall i :: 0 <= i < |ns| ==> ns[i] >= 1) ==> n >= 0
  {
    if ns == [] then 0 else Total(ns[..|ns| - 1]) + ns[|ns| - 1] - 1
  }

  /** However a text is cut into short reads, they deliver it without loss or repetition, and NULs
      behind it. */
  lemma {:induction false} ShortReadsDeliverTheLine(text: seq<byte>, ns: seq<int>)
    requires |text| < KBRD_BUF_LENGTH && forall i :: 0 <= i < |ns| ==> 1 <= ns[i] < KBRD_BUF_LENGTH
    ensures Pieces(text, ns) == (text + Zeros(Total(ns)))[..Total(ns)]
    ensures Left(text, ns) == text[Min(Total(ns), |text|)..]
    decreases |ns|
  {
    if ns != [] {
      var k := |ns| - 1;
      ShortReadsDeliverTheLine(text, ns[..k]);
      NextPiece(text, Left(text, ns[..k]), Total(ns[..k]), ns[k]);
    }
  }

  lemma NextPiece(text: seq<byte>, left: seq<byte>, t: nat, n: int)
    requires 1 <= n < KBRD_BUF_LENGTH && left == text[Min(t, |text|)..]
    ensures Rest(left, n) == text[Min(t + n - 1, |text|)..]
    ensures var d := Answer(left, n);
      (text + Zeros(t))[..t] + d[..|d| - 1] == (text + Zeros(t + n - 1))[..t + n - 1]
  {
    var d := Answer(left, n);
    assert d[..|d| - 1] == (left + Zeros(KBRD_BUF_LENGTH))[..n - 1];
  }
}
