/** The grep program: a 1024-byte buffer that keeps the unfinished line between reads. */
module Grep {
  import opened Bytes
  import opened FileSystem
  import opened Directory

  const BUFFER: int := 1024
  const COLON: byte := 58

  // ---------- the specification: keep the lines that contain s ----------

  /** The text cut at every newline. */
  function Lines(text: seq<byte>): (ls: seq<seq<byte>>)
    ensures ls != []
  {
    if NEWLINE !in text then [text]
    else
      var i := FirstNewline(text);
      [text[..i]] + Lines(text[i + 1..])
  }

  function FirstNewline(text: seq<byte>): (i: nat)
    requires NEWLINE in text
    ensures i < |text| && text[i] == NEWLINE && NEWLINE !in text[..i]
  {
    if text[0] == NEWLINE then 0
    else
      assert text == [text[0]] + text[1..];
      var i := 1 + FirstNewline(text[1..]);
      assert text[..i] == [text[0]] + text[1..][..i - 1];
      i
  }

  /** The lines with a newline between each two of them. */
  function Join(ls: seq<seq<byte>>): seq<byte> {
    if ls == [] then [] else if |ls| == 1 then ls[0] else ls[0] + [10] + Join(ls[1..])
  }

  predicate OccursAt(line: seq<byte>, s: seq<byte>, k: int) {
    0 <= k <= |line| - |s| && line[k..k + |s|] == s
  }

  predicate Contains(line: seq<byte>, s: seq<byte>) {
    exists k :: 0 <= k <= |line| && OccursAt(line, s, k)
  }

  /** A line contains s exactly when s stands between a beginning and an end of it. */
  lemma ContainsIff(line: seq<byte>, s: seq<byte>)
    ensures Contains(line, s) <==> exists before, after :: line == before + s + after
  {
    if Contains(line, s) {
      var k :| 0 <= k <= |line| && OccursAt(line, s, k);
      assert line == line[..k] + s + line[k + |s|..];
    }
    if before, after :| line == before + s + after {
      assert OccursAt(line, s, |before|);
    }
  }

  /** What grep prints for one line. */
  function Reported(line: seq<byte>, s: seq<byte>, fname: seq<byte>): seq<byte> {
    if s != [] && Contains(line, s) then fname + [COLON] + line + [NEWLINE] else []
  }

  function Report(ls: seq<seq<byte>>, s: seq<byte>, fname: seq<byte>): seq<byte> {
    if ls == [] then [] else Reported(ls[0], s, fname) + Report(ls[1..], s, fname)
  }

  predicate ShortLines(ls: seq<seq<byte>>) {
    forall i :: 0 <= i < |ls| ==> |ls[i]| < 1024
  }

  /** Lines takes a text apart without loss, and no line has a newline in it. */
  lemma {:induction false} LinesAreTheText(text: seq<byte>)
    ensures Join(Lines(text)) == text
    ensures forall i :: 0 <= i < |Lines(text)| ==> 10 !in Lines(text)[i]
  {
    if NEWLINE in text {
      var i := FirstNewline(text);
      LinesAreTheText(text[i + 1..]);
      assert Lines(text)[1..] == Lines(text[i + 1..]);
      assert text == text[..i] + [NEWLINE] + text[i + 1..];
    }
  }

  /** A single matching line is printed whole, behind the file name and a colon. */
  lemma MatchingLineIsPrinted(line: seq<byte>, s: seq<byte>, fname: seq<byte>)
    requires NEWLINE !in line
    ensures Report(Lines(line), s, fname) ==
      if s != [] && Contains(line, s) then fname + [58] + line + [10] else []
  {
    assert Lines(line) == [line] && [line][1..] == [];
  }

  /** The lines that contain s, in order. */
  function Matching(ls: seq<seq<byte>>, s: seq<byte>): (ms: seq<seq<byte>>)
    ensures forall l :: l in ms <==> l in ls && s != [] && Contains(l, s)
  {
    if ls == [] then [] else (if s != [] && Contains(ls[0], s) then [ls[0]] else []) + Matching(ls[1..], s)
  }

  /** Each line behind the file name and a colon. */
  function Shown(ls: seq<seq<byte>>, fname: seq<byte>): (r: seq<seq<byte>>)
    ensures |r| == |ls| && forall i :: 0 <= i < |ls| ==> r[i] == fname + [58] + ls[i]
  {
    if ls == [] then [] else [fname + [58] + ls[0]] + Shown(ls[1..], fname)
  }

  /** The lines of a report are the matching lines, each behind the file name and a colon, once each and
      in order; the report ends in a newline. */
  lemma {:induction false} ReportIsMatchingLines(ls: seq<seq<byte>>, s: seq<byte>, fname: seq<byte>)
    requires 10 !in fname && forall i :: 0 <= i < |ls| ==> 10 !in ls[i]
    ensures Lines(Report(ls, s, fname)) == Shown(Matching(ls, s), fname) + [[]]
  {
    if ls != [] {
      ReportIsMatchingLines(ls[1..], s, fname);
      if s != [] && Contains(ls[0], s) {
        var line := fname + [58] + ls[0];
        assert Report(ls, s, fname) == line + [NEWLINE] + Report(ls[1..], s, fname);
        FirstLine(line, Report(ls[1..], s, fname));
        var ms := Matching(ls[1..], s);
        assert Matching(ls, s) == [ls[0]] + ms && ([ls[0]] + ms)[1..] == ms;
      } else {
        assert [] + Report(ls[1..], s, fname) == Report(ls[1..], s, fname);
        assert [] + Matching(ls[1..], s) == Matching(ls[1..], s);
      }
    }
  }

  /** So what grep prints of a file, without a newline behind its buffer, are the file's matching lines. */
  lemma OutputIsMatchingLines(file: seq<byte>, s: seq<byte>, fname: seq<byte>)
    requires 10 !in fname
    ensures Lines(Output(false, file, s, fname)) == Shown(Matching(Lines(file), s), fname) + [[]]
  {
    LinesAreTheText(file);
    ReportIsMatchingLines(Lines(file), s, fname);
  }

  lemma FirstLine(line: seq<byte>, rest: seq<byte>)
    requires NEWLINE !in line
    ensures Lines(line + [NEWLINE] + rest) == [line] + Lines(rest)
  {
    var text := line + [NEWLINE] + rest;
    assert text[|line|] == NEWLINE;
    var i := FirstNewline(text);
    assert forall k :: 0 <= k < |line| ==> text[k] == line[k] && line[k] in line;
    assert forall k :: 0 <= k < i ==> text[k] == text[..i][k] && text[..i][k] in text[..i];
    assert text[..i] == line && text[i + 1..] == rest;
  }

  /** Text without a newline in its first 1024 bytes has a line that is too long, unless it ends. */
  lemma LongLine(line: seq<byte>, rest: seq<byte>)
    requires NEWLINE !in line && |line| >= BUFFER
    ensures !ShortLines(Lines(line + rest))
  {
    var text := line + rest;
    if NEWLINE in text {
      var i := FirstNewline(text);
      assert forall k :: 0 <= k < |line| ==> text[k] == line[k] && line[k] in line;
      assert Lines(text)[0] == text[..i];
    } else {
      assert Lines(text)[0] == text;
    }
  }

  lemma ReportOfBoth(ls: seq<seq<byte>>, ms: seq<seq<byte>>, s: seq<byte>, fname: seq<byte>)
    ensures Report(ls + ms, s, fname) == Report(ls, s, fname) + Report(ms, s, fname)
  {
    if ls == [] {
      assert ls + ms == ms;
    } else {
      assert (ls + ms)[1..] == ls[1..] + ms;
      ReportOfBoth(ls[1..], ms, s, fname);
      Regroup(Reported(ls[0], s, fname), Report(ls[1..], s, fname), Report(ms, s, fname));
    }
  }

  lemma Regroup(x: seq<byte>, y: seq<byte>, z: seq<byte>)
    ensures x + (y + z) == (x + y) + z
  {
  }

  /** The text taken apart after the first newline. */
  lemma AfterFirst(x: seq<byte>, y: seq<byte>)
    requires NEWLINE in x
    ensures var i := FirstNewline(x);
      x == x[..i] + [NEWLINE] + x[i + 1..] && Lines(x + y) == [x[..i]] + Lines(x[i + 1..] + y)
  {
    hide Lines, FirstNewline;
    var i := FirstNewline(x);
    assert x + y == x[..i] + [NEWLINE] + (x[i + 1..] + y);
    FirstLine(x[..i], x[i + 1..] + y);
  }

  /** Where two texts meet, the last line of the first and the first line of the second are one line. */
  lemma {:induction false} WhereTextsMeet(x: seq<byte>, y: seq<byte>)
    ensures Lines(x + y) == Spliced(Lines(x), Lines(y))
    decreases |x|
  {
    if NEWLINE in x {
      var i := FirstNewline(x);
      AfterFirst(x, y);
      WhereTextsMeet(x[i + 1..], y);
      SplicedBehind(x[..i], Lines(x[i + 1..]), Lines(y));
    } else {
      FirstLineGrows(x, y);
      assert [x][..0] == [];
    }
  }

  /** The lines of two texts, the last of the first with the first of the second. */
  function Spliced(ls: seq<seq<byte>>, ms: seq<seq<byte>>): (r: seq<seq<byte>>)
    requires ls != [] && ms != []
    ensures |r| == |ls| + |ms| - 1
  {
    ls[..|ls| - 1] + [ls[|ls| - 1] + ms[0]] + ms[1..]
  }

  lemma SplicedBehind(line: seq<byte>, ls: seq<seq<byte>>, ms: seq<seq<byte>>)
    requires ls != [] && ms != []
    ensures Spliced([line] + ls, ms) == [line] + Spliced(ls, ms)
  {
    assert ([line] + ls)[..|ls|] == [line] + ls[..|ls| - 1];
  }

  lemma FirstLineGrows(x: seq<byte>, y: seq<byte>)
    requires NEWLINE !in x
    ensures Lines(x + y) == [x + Lines(y)[0]] + Lines(y)[1..]
  {
    if NEWLINE in y {
      var i := FirstNewline(y);
      assert NEWLINE !in x + y[..i];
      assert x + y == (x + y[..i]) + [NEWLINE] + y[i + 1..];
      FirstLine(x + y[..i], y[i + 1..]);
      assert Lines(y) == [y[..i]] + Lines(y[i + 1..]);
      assert Lines(y)[1..] == Lines(y[i + 1..]);
    } else {
      assert Lines(y) == [y] && Lines(y)[1..] == [];
    }
  }

  /** Both parts of a text with short lines have short lines. */
  lemma ShortParts(x: seq<byte>, y: seq<byte>)
    requires ShortLines(Lines(x + y))
    ensures ShortLines(Lines(x)) && ShortLines(Lines(y))
  {
    hide Lines;
    WhereTextsMeet(x, y);
    var ls, ms, all := Lines(x), Lines(y), Lines(x + y);
    var n := |ls| - 1;
    forall i | 0 <= i < |ls|
      ensures |ls[i]| < BUFFER
    {
      assert |all[i]| < BUFFER;
    }
    forall i | 0 <= i < |ms|
      ensures |ms[i]| < BUFFER
    {
      assert |all[n + i]| < BUFFER;
    }
  }

  // ---------- a newline behind the buffer ----------

  /** Where the text is cut in two when the byte behind the buffer is a newline: after the first 1024
      bytes that fill the buffer without ending in a newline. */
  function CutAt(text: seq<byte>): (c: nat)
    ensures c <= |text|
  {
    if |text| < BUFFER then |text|
    else if text[BUFFER - 1] == NEWLINE then BUFFER + CutAt(text[BUFFER..])
    else BUFFER
  }

  /** What grep prints for a text. `stray` is whether a newline lies behind the buffer. */
  function Output(stray: bool, text: seq<byte>, s: seq<byte>, fname: seq<byte>): seq<byte> {
    if stray then Report(Lines(text[..CutAt(text)]), s, fname) + Report(Lines(text[CutAt(text)..]), s, fname)
    else Report(Lines(text), s, fname)
  }

  /** The two halves of the line in which the text is cut. */
  function Halves(text: seq<byte>): (seq<byte>, seq<byte>) {
    var ls := Lines(text[..CutAt(text)]);
    (ls[|ls| - 1], Lines(text[CutAt(text)..])[0])
  }

  lemma ContainsMore(x: seq<byte>, y: seq<byte>, s: seq<byte>)
    ensures Contains(x, s) ==> Contains(x + y, s)
    ensures Contains(y, s) ==> Contains(x + y, s)
  {
    if Contains(x, s) {
      var k :| 0 <= k <= |x| && OccursAt(x, s, k);
      assert (x + y)[k..k + |s|] == x[k..k + |s|];
      assert OccursAt(x + y, s, k);
    }
    if Contains(y, s) {
      var k :| 0 <= k <= |y| && OccursAt(y, s, k);
      assert (x + y)[|x| + k..|x| + k + |s|] == y[k..k + |s|];
      assert OccursAt(x + y, s, |x| + k);
    }
  }

  lemma HalvesReported(x: seq<byte>, y: seq<byte>, s: seq<byte>, fname: seq<byte>)
    ensures Reported(x, s, fname) + Reported(y, s, fname) == Reported(x + y, s, fname) <==>
      s == [] || x == [] || y == [] || !Contains(x + y, s)
  {
    ContainsMore(x, y, s);
    assert [] + y == y && x + [] == x;
    assert s != [] ==> !Contains([], s);
  }

  /** With a newline behind the buffer the output is right exactly when the cut does not go through a
      line that contains the pattern. */
  lemma OutputIsRightIff(text: seq<byte>, s: seq<byte>, fname: seq<byte>)
    ensures Output(true, text, s, fname) == Report(Lines(text), s, fname) <==>
      var (x, y) := Halves(text); s == [] || x == [] || y == [] || !Contains(x + y, s)
  {
    hide Lines, Report, CutAt;
    var p, q := text[..CutAt(text)], text[CutAt(text)..];
    var ls, ms := Lines(p), Lines(q);
    var n := |ls| - 1;
    assert text == p + q;
    WhereTextsMeet(p, q);
    assert ls == ls[..n] + [ls[n]] && ms == [ms[0]] + ms[1..];
    HalvesReported(ls[n], ms[0], s, fname);
    SplitReport(ls[..n], ls[n], ms[0], ms[1..], s, fname);
  }

  lemma SplitReport(ls: seq<seq<byte>>, x: seq<byte>, y: seq<byte>, ms: seq<seq<byte>>, s: seq<byte>, fname: seq<byte>)
    ensures Report(ls + [x], s, fname) + Report([y] + ms, s, fname) == Report(ls + [x + y] + ms, s, fname) <==>
      Reported(x, s, fname) + Reported(y, s, fname) == Reported(x + y, s, fname)
  {
    var l, m := Report(ls, s, fname), Report(ms, s, fname);
    var rx, ry, rxy := Reported(x, s, fname), Reported(y, s, fname), Reported(x + y, s, fname);
    ReportOfBoth(ls, [x], s, fname);
    ReportOfBoth([y], ms, s, fname);
    ReportOfBoth(ls + [x + y], ms, s, fname);
    ReportOfBoth(ls, [x + y], s, fname);
    ReportOfOne(x, s, fname);
    ReportOfOne(y, s, fname);
    ReportOfOne(x + y, s, fname);
    Cancel(l, rx, ry, rxy, m);
  }

  lemma ReportOfOne(x: seq<byte>, s: seq<byte>, fname: seq<byte>)
    ensures Report([x], s, fname) == Reported(x, s, fname)
  {
    assert [x][1..] == [];
  }

  lemma Cancel(l: seq<byte>, x: seq<byte>, y: seq<byte>, z: seq<byte>, m: seq<byte>)
    ensures (l + x) + (y + m) == (l + z) + m <==> x + y == z
  {
    assert (l + x) + (y + m) == l + (x + y) + m;
    var a, b := l + (x + y) + m, l + z + m;
    if a == b {
      assert |x + y| == |z|;
      assert a[|l|..|l| + |z|] == x + y && b[|l|..|l| + |z|] == z;
    }
  }

  /** A text whose second line grep prints only in part, and only with a newline behind its buffer. */
  lemma StrayNewlineCutsALine(fname: seq<byte>)
    ensures exists text, s ::
      && ShortLines(Lines(text)) && 0 !in text
      && Output(true, text, s, fname) != Report(Lines(text), s, fname)
  {
    hide Lines, Report, Output, ShortLines;
    var x, s: seq<byte> := seq(BUFFER - 2, _ => 120), [121];
    CutLine(x, s);
    assert x[0] in x;
    OccursBehind(x, s);
    OutputIsRightIff(TwoNewlines(x) + s, s, fname);
  }

  /** The lines of such a text, and the halves of the one that is cut. */
  lemma CutLine(x: seq<byte>, s: seq<byte>)
    requires |x| == BUFFER - 2 && 0 < |s| < BUFFER - |x| && NEWLINE !in x && 0 !in x && NEWLINE !in s && 0 !in s
    ensures var text := TwoNewlines(x) + s;
      Halves(text) == (x, s) && ShortLines(Lines(text)) && 0 !in text
  {
    var head := TwoNewlines(x);
    var text := head + s;
    assert |head| == BUFFER && head[BUFFER - 1] == x[|x| - 1] && x[|x| - 1] in x;
    assert text[BUFFER - 1] == head[BUFFER - 1] && CutAt(text) == BUFFER;
    assert text[..BUFFER] == head && text[BUFFER..] == s;
    LinesOfHead(x);
    assert Lines(s) == [s];
    WhereTextsMeet(head, s);
    assert Lines(text) == [[], [], x + s];
  }

  lemma OccursBehind(x: seq<byte>, s: seq<byte>)
    ensures Contains(x + s, s)
  {
    assert OccursAt(x + s, s, |x|);
  }

  /** A line behind two empty ones. */
  function TwoNewlines(line: seq<byte>): seq<byte> {
    [] + [NEWLINE] + ([] + [NEWLINE] + line)
  }

  lemma LinesOfHead(line: seq<byte>)
    requires NEWLINE !in line
    ensures Lines(TwoNewlines(line)) == [[], [], line]
  {
    FirstLine([], [] + [NEWLINE] + line);
    FirstLine([], line);
    assert Lines(line) == [line];
  }

  // ---------- the support functions ----------

  /** ece391_strncmp. */
  method UserStrncmp(s: seq<byte>, t: seq<byte>, n: nat) returns (r: int)
    requires 0 in s && 0 in t
    ensures r == 0 <==> CString(s, n) == CString(t, n)
  {
    if n == 0 {
      return 0;
    }
    var i, left := 0, n;
    assert s[..|s|] == s && t[..|t|] == t;
    while s[i] == t[i]
      invariant i < |s| && i < |t| && left == n - i > 0 && s[..i] == t[..i] && 0 !in s[..i]
      decreases left
    {
      NulEndsBoth(s, t, n, i);
      if s[i] == 0 {
        return 0;
      }
      left := left - 1;
      if left == 0 {
        CStringIs(s, n, s[..n]);
        CStringIs(t, n, t[..n]);
        return 0;
      }
      assert s[..i + 1] == s[..i] + [s[i]] && t[..i + 1] == t[..i] + [t[i]];
      i := i + 1;
    }
    StoppedAt(s, t, n, i);
    r := s[i] as int - t[i] as int;
  }

  lemma NulEndsBoth(s: seq<byte>, t: seq<byte>, n: nat, i: nat)
    requires i < n && i < |s| && i < |t| && s[..i] == t[..i] && 0 !in s[..i] && s[i] == t[i]
    ensures s[i] == 0 ==> CString(s, n) == CString(t, n)
  {
    if s[i] == 0 {
      StoppedAt(s, t, n, i);
    }
  }

  /** ece391_strcpy(data, data + from), which overlaps itself: the string moves down to the start. */
  method MoveStringDown(data: array<byte>, from: nat, len: nat)
    requires 0 < from && from + len < data.Length
    requires 0 !in data[from..from + len] && data[from + len] == 0
    modifies data
    ensures data[..len] == old(data[from..from + len]) && data[len] == 0
    ensures forall k :: len < k < data.Length ==> data[k] == old(data[k])
  {
    ghost var b := data[..];
    assert forall k :: from <= k < from + len ==> b[k] == data[from..from + len][k - from];
    var i := 0;
    while data[from + i] != 0
      invariant 0 <= i <= len
      invariant forall k :: 0 <= k < i ==> data[k] == b[k + from]
      invariant forall k :: i <= k < data.Length ==> data[k] == b[k]
      decreases len - i
    {
      assert data[from + i] == b[i + from];
      data[i] := data[from + i];
      i := i + 1;
    }
    data[i] := data[from + i];
  }

  // ---------- one line ----------

  /** The search loop: does the line data[start..end], already terminated, contain s? */
  method SearchLine(data: array<byte>, start: nat, end: nat, s: seq<byte>) returns (found: bool)
    requires start <= end < data.Length && data[end] == 0 && 0 !in data[start..end] && 0 !in s
    ensures found <==> s != [] && Contains(data[start..end], s)
  {
    ghost var line := data[start..end];
    var check := start;
    while check < end
      invariant start <= check <= end
      invariant s != [] ==> forall k :: 0 <= k < check - start ==> !OccursAt(line, s, k)
    {
      if (s + [0])[0] == data[check] {
        HereIff(data[..], start, end, check, s);
        var c := UserStrncmp(data[check..], s + [0], |s|);
        if c == 0 {
          assert OccursAt(line, s, check - start);
          return true;
        }
      } else {
        assert s != [] && check - start + |s| <= |line| ==> line[check - start..check - start + |s|][0] == data[check];
        assert s != [] ==> !OccursAt(line, s, check - start);
      }
      check := check + 1;
    }
    return false;
  }

  /** Comparing |s| characters at `check` is looking for s at that place of the line. */
  lemma HereIff(b: seq<byte>, start: nat, end: nat, check: nat, s: seq<byte>)
    requires start <= check < end < |b| && b[end] == 0 && 0 !in b[start..end] && 0 !in s
    ensures 0 in b[check..] && 0 in s + [0] && (s == [] ==> (s + [0])[0] != b[check])
    ensures CString(b[check..], |s|) == CString(s + [0], |s|) <==> OccursAt(b[start..end], s, check - start)
  {
    assert b[check..][end - check] == 0 && b[start..end][check - start] == b[check];
    assert b[start..end][check - start..] == b[check..][..end - check];
    PrefixIff(b[check..], end - check, s);
    if check + |s| <= end {
      assert b[start..end][check - start..check - start + |s|] == b[check..][..|s|];
    }
  }

  lemma PrefixIff(here: seq<byte>, n: nat, s: seq<byte>)
    requires n < |here| && here[n] == 0 && 0 !in here[..n] && 0 !in s
    ensures 0 in s + [0]
    ensures CString(here, |s|) == CString(s + [0], |s|) <==> |s| <= n && here[..|s|] == s
  {
    assert (s + [0])[|s|] == 0 && (s + [0])[..|s|] == s;
    CStringIs(s + [0], |s|, s);
    assert forall k :: 0 <= k < n ==> here[k] == here[..n][k];
    CStringIs(here, |s|, here[..Min(|s|, n)]);
  }

  /** fdputs of the string at `start`. */
  method Printed(data: array<byte>, start: nat, end: nat) returns (text: seq<byte>)
    requires start <= end < data.Length && data[end] == 0 && 0 !in data[start..end]
    ensures text == data[start..end]
  {
    assert data[start..][end - start] == 0;
    assert data[start..][..end - start] == data[start..end];
    CStringIs(data[start..], data.Length - start, data[start..end]);
    var n := Strlen(data[start..]);
    text := data[start..start + n];
    assert text == data[start..][..n];
  }

  // ---------- the buffer ----------

  method FindLineEnd(data: array<byte>, start: nat, last: nat) returns (end: nat)
    requires start <= last < data.Length
    ensures start <= end <= last && NEWLINE !in data[start..end] && (end < last ==> data[end] == NEWLINE)
  {
    end := start;
    while end < last && data[end] != NEWLINE
      invariant start <= end <= last && NEWLINE !in data[start..end]
    {
      assert data[start..end + 1] == data[start..end] + [data[end]];
      end := end + 1;
    }
  }

  /** What remains to be reported once the line before `text` has been dealt with. */
  lemma ReportSplit(line: seq<byte>, text: seq<byte>, s: seq<byte>, fname: seq<byte>)
    requires NEWLINE !in line
    ensures Report(Lines(line + [NEWLINE] + text), s, fname) == Reported(line, s, fname) + Report(Lines(text), s, fname)
    ensures ShortLines(Lines(line + [NEWLINE] + text)) ==> ShortLines(Lines(text))
  {
    FirstLine(line, text);
    var ls := Lines(line + [NEWLINE] + text);
    assert ls[1..] == Lines(text);
    assert forall i :: 0 <= i < |Lines(text)| ==> Lines(text)[i] == ls[i + 1];
  }

  lemma ReportLast(line: seq<byte>, s: seq<byte>, fname: seq<byte>)
    requires NEWLINE !in line
    ensures Report(Lines(line), s, fname) == Reported(line, s, fname)
  {
    assert Lines(line) == [line];
    assert Lines(line)[1..] == [];
  }

  /** Terminate the line in the buffer, search it and print it if it matches. */
  method ReportLine(data: array<byte>, start: nat, end: nat, s: seq<byte>, fname: seq<byte>) returns (text: seq<byte>)
    requires start <= end < data.Length && 0 !in data[start..end] && 0 !in s
    modifies data
    ensures data[end] == 0 && forall k :: 0 <= k < data.Length && k != end ==> data[k] == old(data[k])
    ensures text == Reported(old(data[start..end]), s, fname)
    ensures text ==
      if s != [] && Contains(old(data[start..end]), s) then fname + [58] + old(data[start..end]) + [10] else []
  {
    ghost var line := data[start..end];
    data[end] := 0;
    assert data[start..end] == line;
    var found := SearchLine(data, start, end, s);
    text := [];
    if found {
      var shown := Printed(data, start, end);
      text := fname + [COLON] + shown + [NEWLINE];
    }
  }

  /** What is still to be reported: the buffer from `start` on and the rest of the file. */
  function Pending(b: seq<byte>, start: nat, filled: nat, rest: seq<byte>): seq<byte>
    requires start <= filled <= |b|
  {
    b[start..filled] + rest
  }

  lemma AfterLine(b: seq<byte>, start: nat, end: nat, filled: nat, rest: seq<byte>, s: seq<byte>, fname: seq<byte>)
    requires start <= end < filled <= |b| && NEWLINE !in b[start..end] && b[end] == NEWLINE
    ensures Report(Lines(Pending(b, start, filled, rest)), s, fname) ==
      Reported(b[start..end], s, fname) + Report(Lines(Pending(b, end + 1, filled, rest)), s, fname)
    ensures ShortLines(Lines(Pending(b, start, filled, rest))) ==> ShortLines(Lines(Pending(b, end + 1, filled, rest)))
  {
    assert Pending(b, start, filled, rest) == b[start..end] + [NEWLINE] + Pending(b, end + 1, filled, rest);
    ReportSplit(b[start..end], Pending(b, end + 1, filled, rest), s, fname);
  }

  lemma AfterLastLine(b: seq<byte>, start: nat, filled: nat, s: seq<byte>, fname: seq<byte>)
    requires start <= filled <= |b| && NEWLINE !in b[start..filled]
    ensures Report(Lines(Pending(b, start, filled, [])), s, fname) == Reported(b[start..filled], s, fname)
    ensures Report(Lines([]), s, fname) == [] && ShortLines(Lines([]))
  {
    assert Pending(b, start, filled, []) == b[start..filled];
    ReportLast(b[start..filled], s, fname);
    ReportLast([], s, fname);
  }

  /** The inner loop: report every line of the buffer that ends there, and keep the rest of it, at
      the start of the buffer, for the next read. `rest` is what the file still holds. */
  method ReportBuffer(data: array<byte>, filled: nat, cnt: int, s: seq<byte>, fname: seq<byte>, ghost rest: seq<byte>)
    returns (out: seq<byte>, last: nat, ghost todo: seq<byte>)
    requires data.Length == BUFFER + 1 && filled <= BUFFER && 0 !in s
    requires 0 !in data[..filled] && ShortLines(Lines(Pending(data[..], 0, filled, rest)))
    requires rest != [] ==> filled == BUFFER && cnt != 0 && data[BUFFER] != NEWLINE
    modifies data
    ensures last < BUFFER && 0 !in data[..last]
    ensures last > 0 ==> data[last] == 0
    ensures data[BUFFER] == NEWLINE ==> old(data[BUFFER]) == NEWLINE
    ensures filled == BUFFER && old(data[BUFFER]) == NEWLINE ==>
      last == 0 && (data[BUFFER] == NEWLINE <==> old(data[BUFFER - 1]) == NEWLINE)
    ensures todo == Pending(data[..], 0, last, rest) && ShortLines(Lines(todo))
    ensures Report(Lines(Pending(old(data[..]), 0, filled, rest)), s, fname) == out + Report(Lines(todo), s, fname)
    ensures cnt == 0 ==> last == 0
  {
    hide Lines, Report;
    ghost var b := data[..];
    todo := Pending(b, 0, filled, rest);
    out := [];
    var start := 0;
    while true
      invariant start <= filled && (start == filled ==> start == 0) && todo == Pending(b, start, filled, rest)
      invariant forall k :: start <= k < data.Length ==> data[k] == b[k]
      invariant Report(Lines(Pending(b, 0, filled, rest)), s, fname) == out + Report(Lines(todo), s, fname)
      invariant ShortLines(Lines(todo))
      decreases filled - start
    {
      var end := FindLineEnd(data, start, filled);
      SameStretch(b, data[..], start, end, filled);
      if data[end] != NEWLINE && cnt != 0 && start != 0 {
        last := KeepUnfinishedLine(data, start, end, b, rest);
        return;
      }
      var text;
      ghost var before := out;
      text, todo := ReportNextLine(data, start, end, filled, cnt, s, fname, b, rest);
      out := out + text;
      Regroup(before, text, Report(Lines(todo), s, fname));
      start := end + 1;
      if start >= filled {
        last := 0;
        NothingPending(b, data[..], filled, rest);
        return;
      }
    }
  }

  /** What remains after the line that ends at `end`, in the buffer or behind it. */
  lemma AfterThisLine(b: seq<byte>, start: nat, end: nat, filled: nat, cnt: int, rest: seq<byte>, s: seq<byte>,
      fname: seq<byte>)
    returns (todo: seq<byte>)
    requires start <= end <= filled < |b| == BUFFER + 1 && NEWLINE !in b[start..end] && (end < filled ==>
        b[end] == NEWLINE)
    requires rest != [] ==> filled == BUFFER && cnt != 0 && b[BUFFER] != NEWLINE
    requires !(b[end] != NEWLINE && cnt != 0 && start != 0)
    requires ShortLines(Lines(Pending(b, start, filled, rest)))
    ensures todo == if end < filled then Pending(b, end + 1, filled, rest) else []
    ensures end == filled ==> rest == []
    ensures Report(Lines(Pending(b, start, filled, rest)), s, fname) ==
        Reported(b[start..end], s, fname) + Report(Lines(todo), s, fname)
    ensures ShortLines(Lines(todo))
  {
    hide Lines, Report;
    if end < filled {
      AfterLine(b, start, end, filled, rest, s, fname);
      todo := Pending(b, end + 1, filled, rest);
    } else {
      LastLineIsWhole(b, start, filled, cnt, rest);
      AfterLastLine(b, start, filled, s, fname);
      todo := [];
    }
  }

  /** Report the line that ends at `end`, in the buffer or behind it. */
  method ReportNextLine(data: array<byte>, start: nat, end: nat, filled: nat, cnt: int, s: seq<byte>, fname: seq<byte>,
                        ghost b: seq<byte>, ghost rest: seq<byte>)
    returns (text: seq<byte>, ghost todo: seq<byte>)
    requires start <= end <= filled < |b| == BUFFER + 1 == data.Length && 0 !in s && 0 !in data[start..end]
    requires forall k :: start <= k < data.Length ==> data[k] == b[k]
    requires NEWLINE !in data[start..end] && (end < filled ==> data[end] == NEWLINE)
    requires rest != [] ==> filled == BUFFER && cnt != 0 && b[BUFFER] != NEWLINE
    requires !(data[end] != NEWLINE && cnt != 0 && start != 0)
    requires ShortLines(Lines(Pending(b, start, filled, rest)))
    modifies data
    ensures data[end] == 0 && forall k :: end < k < data.Length ==> data[k] == b[k]
    ensures todo == if end < filled then Pending(b, end + 1, filled, rest) else []
    ensures end == filled ==> rest == []
    ensures Report(Lines(Pending(b, start, filled, rest)), s, fname) == text + Report(Lines(todo), s, fname)
    ensures ShortLines(Lines(todo))
  {
    hide Lines, Report;
    assert data[start..end] == b[start..end];
    todo := AfterThisLine(b, start, end, filled, cnt, rest, s, fname);
    text := ReportLine(data, start, end, s, fname);
  }

  lemma NothingPending(b: seq<byte>, now: seq<byte>, filled: nat, rest: seq<byte>)
    requires filled <= |b|
    ensures Pending(b, filled, filled, rest) == rest == Pending(now, 0, 0, rest)
  {
  }

  lemma SameStretch(b: seq<byte>, now: seq<byte>, start: nat, end: nat, filled: nat)
    requires start <= end <= filled <= |b| == |now|
    requires forall k :: start <= k < |b| ==> now[k] == b[k]
    ensures now[start..end] == b[start..end]
    ensures 0 !in b[..filled] ==> 0 !in now[start..end]
  {
  }

  /** Move the unfinished line to the start of the buffer. */
  method KeepUnfinishedLine(data: array<byte>, start: nat, end: nat, ghost b: seq<byte>,
      ghost rest: seq<byte>) returns (last: nat)
    requires 0 < start < end <= BUFFER && data.Length == BUFFER + 1 == |b|
    requires 0 !in data[start..end] && data[start..end] == b[start..end]
    modifies data
    ensures 0 < last < BUFFER && 0 !in data[..last] && data[last] == 0
    ensures data[BUFFER] == if end == BUFFER then 0 else old(data[BUFFER])
    ensures Pending(data[..], 0, last, rest) == Pending(b, start, end, rest)
  {
    data[end] := 0;
    assert data[start..end] == b[start..end];
    MoveStringDown(data, start, end - start);
    last := end - start;
  }

  lemma LastLineIsWhole(b: seq<byte>, start: nat, filled: nat, cnt: int, rest: seq<byte>)
    requires start <= filled < |b| == BUFFER + 1 && NEWLINE !in b[start..filled]
    requires rest != [] ==> filled == BUFFER && cnt != 0 && b[BUFFER] != NEWLINE
    requires !(b[filled] != NEWLINE && cnt != 0 && start != 0)
    requires ShortLines(Lines(b[start..filled] + rest))
    ensures rest == []
  {
    if rest != [] {
      LongLine(b[start..filled], rest);
    }
  }

  // ---------- one file ----------

  /** The buffer between two reads: an unfinished line of `last` bytes. */
  ghost predicate Ready(b: seq<byte>, last: int) {
    |b| == BUFFER + 1 && 0 <= last < BUFFER && 0 !in b[..last] && (last > 0 ==> b[last] == 0)
  }

  /** A read of cnt bytes has put the file's bytes from pos on behind the unfinished line. */
  ghost predicate ReadInto(b: seq<byte>, now: seq<byte>, last: int, file: seq<byte>, pos: int, cnt: int)
    requires 0 <= last < BUFFER && |b| == BUFFER + 1 && 0 <= pos <= |file|
  {
    && cnt == Min(BUFFER - last, |file| - pos)
    && |now| == |b| && now[..last + cnt] == b[..last] + file[pos..pos + cnt]
    && (now[BUFFER] == NEWLINE ==> b[BUFFER] == NEWLINE)
    && (last == 0 ==> now[BUFFER] == b[BUFFER])
  }

  /** What one read of a file does to the buffer. */
  lemma ChunkRead(img: Image, inode: nat, pos: nat, b: seq<byte>, last: nat)
    requires WellFormed(img) && inode < |img.inodes| && pos <= img.inodes[inode].length
    requires |b| == BUFFER + 1 && last < BUFFER
    ensures Fits(img, inode, pos, U32(BUFFER - last), Cleared(b, last), last)
    ensures var (buf, cnt) := ReadEffect(img, inode, pos, U32(BUFFER - last), Cleared(b, last), last);
      ReadInto(b, buf, last, Contents(img, img.inodes[inode]), pos, cnt)
  {
    PlainCount(img.inodes[inode].length, pos, BUFFER - last);
    BufferCleared(b, last);
  }

  lemma BufferCleared(b: seq<byte>, last: nat)
    requires |b| == BUFFER + 1 && last < BUFFER
    ensures var c := Cleared(b, last);
      |c| == |b| && c[..last] == b[..last] && (c[BUFFER] == b[BUFFER] || (c[BUFFER] == 0 && last > 0))
  {
  }

  /** ece391_read(fd, data + last, BUFSIZE - last) of a file whose descriptor is at pos. */
  method ReadChunk(img: Image, inode: nat, pos: nat, data: array<byte>, last: nat, ghost file: seq<byte>)
    returns (cnt: int)
    requires WellFormed(img) && Ready(data[..], last) && pos <= |file|
    requires if inode < |img.inodes| then file == Contents(img, img.inodes[inode]) else file == []
    modifies data
    ensures inode >= |img.inodes| ==> cnt == -1
    ensures inode < |img.inodes| ==> ReadInto(old(data[..]), data[..], last, file, pos, cnt)
  {
    hide Contents, Cleared;
    assert last > 0 ==> data[..][last..][0] == 0;
    if inode < |img.inodes| {
      ChunkRead(img, inode, pos, data[..], last);
    }
    cnt := FileRead(img, inode, data, last, BUFFER - last, pos);
  }

  /** The text between the buffer and the end of the file is not changed by a read. */
  lemma ReadMoves(b: seq<byte>, now: seq<byte>, last: nat, file: seq<byte>, pos: nat, cnt: nat)
    requires Ready(b, last) && pos <= |file| && ReadInto(b, now, last, file, pos, cnt) && 0 !in file
    ensures Pending(b, 0, last, file[pos..]) == Pending(now, 0, last + cnt, file[pos + cnt..])
    ensures 0 !in now[..last + cnt]
    ensures file[pos + cnt..] != [] ==> last + cnt == BUFFER && cnt != 0
  {
    assert file[pos..] == file[pos..pos + cnt] + file[pos + cnt..];
    assert now[0..last + cnt] == b[0..last] + file[pos..pos + cnt];
  }

  /** The bytes of a message. */
  function Ascii(message: string): (r: seq<byte>)
    requires forall i :: 0 <= i < |message| ==> message[i] as int < 128
    ensures |r| == |message| && forall i :: 0 <= i < |message| ==> r[i] == message[i] as int
  {
    seq(|message|, i requires 0 <= i < |message| => message[i] as int)
  }

  const OPEN_FAILED: seq<byte> := Ascii("file open failed\n")
  const READ_FAILED: seq<byte> := Ascii("file read failed\n")

  /** grep of one file prints exactly the lines that contain s, once each and in order, wherever the
      1024-byte reads cut the file, but for the line that a newline behind the buffer may cut. */
  method DoOneFile(img: Image, s: seq<byte>, fname: seq<byte>, data: array<byte>) returns (r: int, out: seq<byte>)
    requires WellFormed(img) && 0 !in s && 0 !in fname && data.Length == 1025
    requires Lookup(img, fname).Some? ==> Lookup(img, fname).value.fileType == 2
    requires Lookup(img, fname).Some? && Lookup(img, fname).value.inode < |img.inodes| ==>
      var file := Contents(img, img.inodes[Lookup(img, fname).value.inode]); 0 !in file && ShortLines(Lines(file))
    modifies data
    ensures Lookup(img, fname) == None ==> r == -1 && out == Ascii("file open failed\n")
    ensures Lookup(img, fname).Some? && Lookup(img, fname).value.inode >= |img.inodes| ==>
      r == -1 && out == Ascii("file read failed\n")
    ensures Lookup(img, fname).Some? && Lookup(img, fname).value.inode < |img.inodes| ==>
      var file := Contents(img, img.inodes[Lookup(img, fname).value.inode]);
      r == 0 && out == Output(old(data[1024]) == 10, file, s, fname)
  {
    var dentry := ReadDentryByName(img, fname);
    if dentry == None {
      return -1, OPEN_FAILED;
    }
    var inode := dentry.value.inode;
    ghost var file := if inode < |img.inodes| then Contents(img, img.inodes[inode]) else [];
    NoLines(s, fname);
    r, out := ScanFile(img, inode, s, fname, data, file);
  }

  lemma NoLines(s: seq<byte>, fname: seq<byte>)
    ensures Lines([]) == [[]] && ShortLines(Lines([])) && Report(Lines([]), s, fname) == []
  {
    ReportLast([], s, fname);
    assert s != [] ==> !Contains([], s);
  }

  /** The outer loop's invariant: what has been printed and what will be printed for the rest of the
      text make the whole output. */
  ghost predicate Progress(b: seq<byte>, last: int, file: seq<byte>, pos: int, out: seq<byte>, s: seq<byte>,
                           fname: seq<byte>, whole: seq<byte>) {
    && 0 <= pos <= |file| && Ready(b, last) && ShortLines(Lines(Pending(b, 0, last, file[pos..])))
    && (b[BUFFER] == NEWLINE && last > 0 ==> pos == |file|)
    && whole == out + Output(b[BUFFER] == NEWLINE, Pending(b, 0, last, file[pos..]), s, fname)
  }

  lemma Begun(b: seq<byte>, file: seq<byte>, s: seq<byte>, fname: seq<byte>)
    requires |b| == BUFFER + 1 && ShortLines(Lines(file))
    ensures Progress(b, 0, file, 0, [], s, fname, Output(b[BUFFER] == NEWLINE, file, s, fname))
  {
    assert Pending(b, 0, 0, file[0..]) == file;
  }

  method ScanFile(img: Image, inode: nat, s: seq<byte>, fname: seq<byte>, data: array<byte>, ghost file: seq<byte>)
    returns (r: int, out: seq<byte>)
    requires WellFormed(img) && 0 !in s && 0 !in fname && data.Length == BUFFER + 1
    requires if inode < |img.inodes| then file == Contents(img, img.inodes[inode]) else file == []
    requires 0 !in file && ShortLines(Lines(file))
    modifies data
    ensures inode >= |img.inodes| ==> r == -1 && out == READ_FAILED
    ensures inode < |img.inodes| ==> r == 0 && out == Output(old(data[BUFFER]) == NEWLINE, file, s, fname)
  {
    hide Lines, Report, CutAt, Output, LookupFrom;
    ghost var whole := Output(data[BUFFER] == NEWLINE, file, s, fname);
    Begun(data[..], file, s, fname);
    var pos, last := 0, 0;
    out := [];
    while true
      invariant Progress(data[..], last, file, pos, out, s, fname, whole)
      invariant inode >= |img.inodes| ==> out == []
      decreases |file| - pos
    {
      var cnt;
      cnt, last, out := Advance(img, inode, pos, data, last, out, s, fname, file, whole);
      if cnt == -1 {
        return -1, out + READ_FAILED;
      }
      pos := pos + cnt;
      if cnt == 0 {
        break;
      }
    }
    r := 0;
  }

  /** One round of the outer loop; -1 when the read fails. */
  method Advance(img: Image, inode: nat, pos: nat, data: array<byte>, last0: nat, out0: seq<byte>, s: seq<byte>,
                 fname: seq<byte>, ghost file: seq<byte>, ghost whole: seq<byte>)
    returns (cnt: int, last: nat, out: seq<byte>)
    requires WellFormed(img) && 0 !in s && 0 !in file
    requires if inode < |img.inodes| then file == Contents(img, img.inodes[inode]) else file == []
    requires Progress(data[..], last0, file, pos, out0, s, fname, whole)
    modifies data
    ensures cnt == -1 <==> inode >= |img.inodes|
    ensures cnt == -1 ==> out == out0
    ensures cnt != -1 ==> 0 <= cnt <= |file| - pos && Progress(data[..], last, file, pos + cnt, out, s, fname, whole)
    ensures cnt == 0 ==> out == whole
  {
    hide Lines, Report, CutAt, Output;
    ghost var b := data[..];
    cnt := ReadChunk(img, inode, pos, data, last0, file);
    if cnt == -1 {
      last, out := last0, out0;
      return;
    }
    ghost var now := data[..];
    ReadMoves(b, now, last0, file, pos, cnt);
    ghost var rest := file[pos + cnt..];
    ghost var seen := Seen(now, last0 + cnt, rest);
    SeenIsShort(now, last0 + cnt, rest);
    var text;
    ghost var todo;
    text, last, todo := ReportBuffer(data, last0 + cnt, cnt, s, fname, seen);
    out := out0 + text;
    RoundOutput(b, now, data[..], last0, last, file, pos, cnt, text, todo, s, fname);
    Regroup(out0, text, Output(data[BUFFER] == NEWLINE, Pending(data[..], 0, last, rest), s, fname));
    NoOutput(s, fname);
    assert cnt == 0 ==> Pending(data[..], 0, last, rest) == [];
  }

  /** What grep takes to follow the buffer: nothing, when a newline lies behind it. */
  ghost function Seen(now: seq<byte>, filled: nat, rest: seq<byte>): seq<byte>
    requires |now| == BUFFER + 1
  {
    if now[BUFFER] == NEWLINE then [] else rest
  }

  lemma SeenIsShort(now: seq<byte>, filled: nat, rest: seq<byte>)
    requires |now| == BUFFER + 1 && filled <= BUFFER && ShortLines(Lines(Pending(now, 0, filled, rest)))
    ensures ShortLines(Lines(Pending(now, 0, filled, Seen(now, filled, rest))))
    ensures ShortLines(Lines(rest))
  {
    ShortParts(now[0..filled], rest);
    assert now[0..filled] + [] == now[0..filled];
  }

  lemma NoOutput(s: seq<byte>, fname: seq<byte>)
    ensures Output(true, [], s, fname) == [] && Output(false, [], s, fname) == []
  {
    NoLines(s, fname);
  }

  /** A text that does not fill the buffer is printed in the same way with and without a newline there. */
  lemma ShortOutput(stray: bool, text: seq<byte>, s: seq<byte>, fname: seq<byte>)
    requires |text| < BUFFER
    ensures Output(stray, text, s, fname) == Report(Lines(text), s, fname)
  {
    assert text[..|text|] == text && text[|text|..] == [];
    NoLines(s, fname);
  }

  /** A full buffer with a newline behind it is printed by itself. */
  lemma FullOutput(block: seq<byte>, rest: seq<byte>, s: seq<byte>, fname: seq<byte>)
    requires |block| == BUFFER
    ensures Output(true, block + rest, s, fname) ==
      Report(Lines(block), s, fname) + Output(block[BUFFER - 1] == NEWLINE, rest, s, fname)
  {
    var text := block + rest;
    assert text[BUFFER..] == rest && text[..BUFFER] == block;
    if block[BUFFER - 1] == NEWLINE {
      var c := CutAt(rest);
      assert text[..BUFFER + c] == block + rest[..c] && text[BUFFER + c..] == rest[c..];
      WholeLines(block, rest[..c], s, fname);
      Regroup(Report(Lines(block), s, fname), Report(Lines(rest[..c]), s, fname), Report(Lines(rest[c..]), s, fname));
    }
  }

  /** After a text that ends in a newline, the report goes on with what follows. */
  lemma WholeLines(x: seq<byte>, y: seq<byte>, s: seq<byte>, fname: seq<byte>)
    requires x != [] && x[|x| - 1] == NEWLINE
    ensures Report(Lines(x + y), s, fname) == Report(Lines(x), s, fname) + Report(Lines(y), s, fname)
  {
    hide Lines, Report;
    LastLineIsEmpty(x);
    WhereTextsMeet(x, y);
    var ls, ms := Lines(x), Lines(y);
    var n := |ls| - 1;
    assert [] + ms[0] == ms[0];
    assert Lines(x + y) == ls[..n] + ms;
    ReportOfBoth(ls[..n], ms, s, fname);
    assert ls == ls[..n] + [[]];
    ReportOfBoth(ls[..n], [[]], s, fname);
    NoLines(s, fname);
    assert Report(ls[..n], s, fname) + [] == Report(ls[..n], s, fname);
  }

  lemma {:induction false} LastLineIsEmpty(x: seq<byte>)
    requires x != [] && x[|x| - 1] == NEWLINE
    ensures Lines(x)[|Lines(x)| - 1] == []
    decreases |x|
  {
    hide FirstNewline;
    var i := FirstNewline(x);
    if i + 1 < |x| {
      LastLineIsEmpty(x[i + 1..]);
    } else {
      assert x[i + 1..] == [];
    }
  }

  /** What one round prints, and what its buffer then stands for. */
  lemma RoundOutput(b: seq<byte>, now: seq<byte>, after: seq<byte>, last0: nat, last: nat, file: seq<byte>,
      pos: nat, cnt: nat,
                    text: seq<byte>, todo: seq<byte>, s: seq<byte>, fname: seq<byte>)
    requires Ready(b, last0) && pos + cnt <= |file| && ReadInto(b, now, last0, file, pos, cnt) && Ready(after, last)
    requires b[BUFFER] == NEWLINE && last0 > 0 ==> pos == |file|
    requires var rest := file[pos + cnt..];
      && Pending(b, 0, last0, file[pos..]) == Pending(now, 0, last0 + cnt, rest)
      && ShortLines(Lines(rest)) && ShortLines(Lines(todo))
      && todo == Pending(after, 0, last, Seen(now, last0 + cnt, rest))
      && Report(Lines(Pending(now, 0, last0 + cnt, Seen(now, last0 + cnt, rest))), s, fname) ==
          text + Report(Lines(todo), s, fname)
    requires after[BUFFER] == NEWLINE ==> now[BUFFER] == NEWLINE
    requires last0 + cnt == BUFFER && now[BUFFER] == NEWLINE ==>
      last == 0 && (after[BUFFER] == NEWLINE <==> now[BUFFER - 1] == NEWLINE)
    ensures var rest := file[pos + cnt..];
      Output(b[BUFFER] == NEWLINE, Pending(b, 0, last0, file[pos..]), s, fname) ==
        text + Output(after[BUFFER] == NEWLINE, Pending(after, 0, last, rest), s, fname)
      && ShortLines(Lines(Pending(after, 0, last, rest)))
    ensures after[BUFFER] == NEWLINE && last > 0 ==> pos + cnt == |file|
  {
    hide Lines, Report, CutAt, Output;
    var rest := file[pos + cnt..];
    var filled := last0 + cnt;
    if now[BUFFER] == NEWLINE && filled == BUFFER {
      FullOutput(now[0..BUFFER], rest, s, fname);
      assert now[0..BUFFER] + [] == now[0..BUFFER];
      NoLines(s, fname);
      assert todo == [] && Pending(after, 0, last, rest) == rest;
    } else if b[BUFFER] == NEWLINE {
      assert rest == [] && Pending(b, 0, last0, file[pos..]) == now[0..filled];
      ShortOutput(true, now[0..filled], s, fname);
      assert todo == after[0..last];
      ShortOutput(after[BUFFER] == NEWLINE, todo, s, fname);
    } else {
      PlainOutput(Pending(now, 0, filled, rest), s, fname);
      PlainOutput(todo, s, fname);
    }
  }

  lemma PlainOutput(text: seq<byte>, s: seq<byte>, fname: seq<byte>)
    ensures Output(false, text, s, fname) == Report(Lines(text), s, fname)
  {
  }
}
