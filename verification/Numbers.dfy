/** Printing numbers: itoa with its in-place reversal, and printf's %#x. */
module Numbers {
  import opened Arithmetic
  import opened Bytes

  type Radix = r: int | 2 <= r <= 36 witness 10

  // ---------- numerals ----------

  /** lookup[d] of "0123456789ABC...Z". */
  function DigitChar(d: int): byte
    requires 0 <= d < 36
  {
    if d < 10 then 48 + d else 55 + d
  }

  function DigitValue(c: byte): int {
    if 48 <= c <= 57 then c - 48 else if 65 <= c <= 90 then c - 55 else -1
  }

  const LOOKUP: string := "0123456789ABCDEFGHIJKLMNOPQRSTUVWXYZ"

  /** The digits are the characters of the lookup table, and their values the places there. */
  lemma DigitsAreLookedUp(d: int)
    requires 0 <= d < 36
    ensures |LOOKUP| == 36 && DigitChar(d) == LOOKUP[d] as int && DigitValue(DigitChar(d)) == d
  {
  }

  predicate IsNumeral(s: seq<byte>, radix: Radix) {
    forall k :: 0 <= k < |s| ==> 0 <= DigitValue(s[k]) < radix
  }

  /** The number that a string of digits denotes. */
  function Parse(s: seq<byte>, radix: Radix): int {
    if s == [] then 0 else Parse(s[..|s| - 1], radix) * radix + DigitValue(s[|s| - 1])
  }

  /** The digits of a number, the most significant first. */
  function Numeral(value: nat, radix: Radix): (s: seq<byte>)
    ensures s != []
    decreases value
  {
    if value < radix then [DigitChar(value)]
    else
      Smaller(value, radix);
      Numeral(value / radix, radix) + [DigitChar(value % radix)]
  }

  lemma Smaller(value: nat, radix: Radix)
    requires value > 0
    ensures 0 <= value / radix < value && 0 <= value % radix < radix
    ensures value == value / radix * radix + value % radix
  {
    var q := value / radix;
    assert value == q * radix + value % radix;
    if q > 0 {
      assert q * radix >= q * 2;
    }
  }

  /** Printing and parsing round-trips; the numeral has digits of the radix and no leading zero. */
  lemma {:induction false} RoundTrip(value: nat, radix: Radix)
    ensures Parse(Numeral(value, radix), radix) == value
    ensures IsNumeral(Numeral(value, radix), radix)
    ensures value > 0 ==> Numeral(value, radix)[0] != 48
    ensures value == 0 ==> Numeral(value, radix) == [48]
    decreases value
  {
    var s := Numeral(value, radix);
    if value < radix {
      assert s[..0] == [];
    } else {
      Smaller(value, radix);
      QuotientPositive(value, radix);
      RoundTrip(value / radix, radix);
      assert s[..|s| - 1] == Numeral(value / radix, radix);
    }
  }

  lemma QuotientPositive(value: nat, radix: Radix)
    requires value >= radix
    ensures value / radix > 0
  {
    Smaller(value, radix);
    ProductSign(value / radix, radix);
  }

  /** No other numeral without a leading zero denotes the number. */
  lemma {:induction false} NumeralIsUnique(s: seq<byte>, radix: Radix)
    requires s != [] && IsNumeral(s, radix) && (s[0] == 48 ==> |s| == 1)
    ensures Parse(s, radix) >= 0 && Numeral(Parse(s, radix), radix) == s
    ensures s[0] != 48 ==> Parse(s, radix) > 0
    decreases |s|
  {
    var t, d := s[..|s| - 1], DigitValue(s[|s| - 1]);
    if |s| == 1 {
      assert t == [] && Parse(s, radix) == d;
    } else {
      NumeralIsUnique(t, radix);
      var q := Parse(t, radix);
      AppendDigit(q, d, radix);
      assert s == t + [DigitChar(d)];
    }
  }

  lemma AppendDigit(q: nat, d: int, radix: Radix)
    requires q > 0 && 0 <= d < radix
    ensures q * radix + d >= radix && (q * radix + d) / radix == q && (q * radix + d) % radix == d
  {
    ProductSign(q, radix);
    DividesAs(q * radix + d, q, d, radix);
  }

  /** Numbers below radix^n have at most n digits. */
  lemma {:induction false} NumeralLength(value: nat, radix: Radix, n: nat)
    requires n > 0 && value < Power(radix, n)
    ensures |Numeral(value, radix)| <= n
    decreases value
  {
    if value >= radix {
      Smaller(value, radix);
      PowerAbove(value, radix, n);
      NumeralLength(value / radix, radix, n - 1);
    }
  }

  lemma PowerAbove(value: nat, radix: Radix, n: nat)
    requires n > 0 && radix <= value < Power(radix, n)
    ensures n > 1 && 0 <= value / radix < Power(radix, n - 1)
  {
    assert Power(radix, 1) == radix * Power(radix, 0);
    var q, p := value / radix, Power(radix, n - 1);
    Smaller(value, radix);
    ProductSign(q - p, radix);
    assert (q - p) * radix == q * radix - p * radix;
  }

  function Power(radix: int, n: nat): int {
    if n == 0 then 1 else radix * Power(radix, n - 1)
  }

  // ---------- strrev ----------

  function Reversed(s: seq<byte>): (r: seq<byte>)
    ensures |r| == |s|
    ensures forall k :: 0 <= k < |s| ==> r[k] == s[|s| - 1 - k]
  {
    if s == [] then [] else Reversed(s[1..]) + [s[0]]
  }

  /** The C string that starts at `from`. */
  function StringAt(b: seq<byte>, from: nat): seq<byte>
    requires from <= |b|
  {
    CString(b[from..], |b| - from)
  }

  method StrlenAt(buf: array<byte>, from: nat) returns (len: nat)
    requires from <= buf.Length && 0 in buf[..][from..]
    ensures from + len < buf.Length && buf[from + len] == 0 && buf[from..from + len] == StringAt(buf[..], from)
  {
    len := Strlen(buf[from..]);
    assert buf[..][from..] == buf[from..];
    assert buf[from..][..len] == buf[from..from + len];
  }

  /** A string and its NUL, once written, are what is read there. */
  lemma StringWritten(b: seq<byte>, from: nat, t: seq<byte>)
    requires 0 !in t && from + |t| < |b|
    ensures var m := Written(b, from, t + [0]); 0 in m[from..] && StringAt(m, from) == t
  {
    var m := Written(b, from, t + [0]);
    assert m[from..][|t|] == 0;
    assert m[from..][..|t|] == t;
    CStringIs(m[from..], |m| - from, t);
  }

  /** strrev reverses the string in place and touches nothing else. */
  method Strrev(buf: array<byte>, from: nat)
    requires from <= buf.Length && 0 in buf[..][from..]
    modifies buf
    ensures var s := StringAt(old(buf[..]), from);
      from + |s| < buf.Length && buf[..] == Written(old(buf[..]), from, Reversed(s))
  {
    ghost var b := buf[..];
    var len := StrlenAt(buf, from);
    SwapEnds(buf, from, len);
    MirroredIsReversed(b, buf[..], from, len);
  }

  /** The loop of strrev: the len bytes at `from` change places with their mirror images. */
  method SwapEnds(buf: array<byte>, from: nat, len: nat)
    requires from + len <= buf.Length
    modifies buf
    ensures Mirrored(old(buf[..]), buf[..], from, len)
  {
    ghost var b := buf[..];
    var beg: int, end: int := 0, len - 1;
    while beg < end
      invariant 0 <= beg <= len && end == len - 1 - beg
      invariant forall k :: 0 <= k < buf.Length && !(from <= k < from + len) ==> buf[k] == b[k]
      invariant forall k :: from + beg <= k <= from + end ==> buf[k] == b[k]
      invariant forall k :: from <= k < from + beg ==> buf[k] == b[2 * from + len - 1 - k]
      invariant forall k :: from + end < k < from + len ==> buf[k] == b[2 * from + len - 1 - k]
    {
      var tmp := buf[from + end];
      buf[from + end] := buf[from + beg];
      buf[from + beg] := tmp;
      beg := beg + 1;
      end := end - 1;
    }
  }

  ghost predicate Mirrored(b: seq<byte>, now: seq<byte>, from: nat, len: nat)
    requires from + len <= |b| == |now|
  {
    && (forall k :: 0 <= k < |b| && !(from <= k < from + len) ==> now[k] == b[k])
    && (forall k :: from <= k < from + len ==> now[k] == b[2 * from + len - 1 - k])
  }

  lemma MirroredIsReversed(b: seq<byte>, now: seq<byte>, from: nat, len: nat)
    requires from + len <= |b| == |now| && Mirrored(b, now, from, len)
    ensures now == Written(b, from, Reversed(b[from..from + len]))
  {
  }

  // ---------- itoa ----------

  /** itoa writes the numeral and a NUL, and nothing else. */
  method Itoa(value: uint32, buf: array<byte>, from: nat, radix: Radix)
    requires from + |Numeral(value, radix)| < buf.Length
    modifies buf
    ensures buf[..] == Written(old(buf[..]), from, Numeral(value, radix) + [0])
  {
    if value == 0 {
      buf[from] := 48;
      buf[from + 1] := 0;
      return;
    }
    ghost var b, s := buf[..], Numeral(value, radix);
    var n := WriteLowFirst(value, buf, from, radix);
    assert buf[..] == Written(b, from, Reversed(s));
    buf[from + n] := 0;
    assert buf[..] == Written(b, from, Reversed(s) + [0]);
    NumeralIsString(value, radix);
    StringWritten(b, from, Reversed(s));
    Strrev(buf, from);
    RewriteBack(b, from, s);
  }

  lemma RewriteBack(b: seq<byte>, from: nat, s: seq<byte>)
    requires from + |s| < |b|
    ensures Written(Written(b, from, Reversed(s) + [0]), from, Reversed(Reversed(s))) == Written(b, from, s + [0])
  {
    assert Reversed(Reversed(s)) == s;
    Rewritten(b, from, Reversed(s), s);
  }

  lemma Rewritten(b: seq<byte>, from: nat, r: seq<byte>, s: seq<byte>)
    requires from + |s| < |b| && |r| == |s|
    ensures Written(Written(b, from, r + [0]), from, s) == Written(b, from, s + [0])
  {
  }

  /** The digit loop of itoa: least significant digit first. */
  method WriteLowFirst(value: uint32, buf: array<byte>, from: nat, radix: Radix) returns (n: nat)
    requires value > 0 && from + |Numeral(value, radix)| < buf.Length
    modifies buf
    ensures n == |Numeral(value, radix)|
    ensures buf[..] == Written(old(buf[..]), from, Reversed(Numeral(value, radix)))
  {
    hide Numeral, Reversed;
    ghost var b := buf[..];
    ghost var s := Numeral(value, radix);
    ghost var r := Reversed(s);
    var newval: int := value;
    n := 0;
    while newval > 0
      invariant newval >= 0 && n <= |s|
      invariant (if newval > 0 then Numeral(newval, radix) else []) == s[..|s| - n]
      invariant forall k :: 0 <= k < buf.Length ==> buf[k] == if from <= k < from + n then r[k - from] else b[k]
      decreases newval
    {
      LastDigit(newval, radix);
      var i := newval % radix;
      DropLast(s, n);
      buf[from + n] := DigitChar(i);
      n := n + 1;
      newval := newval / radix;
    }
  }

  lemma DropLast(s: seq<byte>, n: nat)
    requires n < |s|
    ensures s[..|s| - n][..|s| - n - 1] == s[..|s| - n - 1] && s[..|s| - n][|s| - n - 1] == Reversed(s)[n]
  {
    var m := |s| - n;
    Shorter(s, m);
    assert Reversed(s)[n] == s[m - 1];
  }

  lemma Shorter(s: seq<byte>, m: nat)
    requires 0 < m <= |s|
    ensures s[..m][..m - 1] == s[..m - 1] && s[..m][m - 1] == s[m - 1]
  {
  }

  lemma LastDigit(value: nat, radix: Radix)
    requires value > 0
    ensures 0 <= value % radix < radix && 0 <= value / radix < value
    ensures var s := Numeral(value, radix);
      s[|s| - 1] == DigitChar(value % radix)
      && s[..|s| - 1] == (if value / radix > 0 then Numeral(value / radix, radix) else [])
  {
    Smaller(value, radix);
    if value >= radix {
      QuotientPositive(value, radix);
    } else {
      DividesAs(value, 0, value, radix);
    }
  }

  lemma NumeralIsString(value: nat, radix: Radix)
    ensures 0 !in Numeral(value, radix) && 0 !in Reversed(Numeral(value, radix))
  {
    RoundTrip(value, radix);
    var s := Numeral(value, radix);
    assert forall k :: 0 <= k < |s| ==> s[k] != 0;
  }

  // ---------- printf's %#x ----------

  /** %#x: eight hexadecimal digits for every value, with zeros on the left. */
  method PrintHex(value: uint32, convBuf: array<byte>) returns (out: seq<byte>)
    requires convBuf.Length == 64
    modifies convBuf
    ensures |out| == 8 && IsNumeral(out, 16) && Parse(out, 16) == value
  {
    hide Numeral, Parse, IsNumeral, Written, Pad, StringAt;
    ghost var b, s := convBuf[..], Numeral(value, 16);
    HexString(b, value);
    Itoa(value, convBuf, 8, 16);
    var start := StrlenAt(convBuf, 8);
    FillZeroes(convBuf, start, 8);
    HexPadded(b, value);
    out := ReadString(convBuf, start);
  }

  /** What itoa has left for %#x. */
  lemma HexString(b: seq<byte>, value: uint32)
    requires |b| == 64
    ensures var s := Numeral(value, 16);
      1 <= |s| <= 8 && var m := Written(b, 8, s + [0]); 0 in m[8..] && StringAt(m, 8) == s
  {
    HexLength(value);
    NumeralIsString(value, 16);
    StringWritten(b, 8, Numeral(value, 16));
  }

  /** What %#x then prints. */
  lemma HexPadded(b: seq<byte>, value: uint32)
    requires |b| == 64
    ensures var s := Numeral(value, 16);
      1 <= |s| <= 8
      && var m := Written(Written(b, 8, s + [0]), |s|, Zeroes(8 - |s|));
      0 in m[|s|..] && var out := StringAt(m, |s|);
      |out| == 8 && IsNumeral(out, 16) && Parse(out, 16) == value
  {
    hide Numeral, Parse, IsNumeral, Written, StringAt;
    var s := Numeral(value, 16);
    HexLength(value);
    NumeralIsString(value, 16);
    RoundTrip(value, 16);
    PadParses(8 - |s|, s, 16);
    Padded(b, |s|, s);
    StringWritten(b, |s|, Pad(8 - |s|, s));
  }

  /** The padding loop of %#x. */
  method FillZeroes(buf: array<byte>, from: nat, to: nat)
    requires from <= to <= buf.Length
    modifies buf
    ensures buf[..] == Written(old(buf[..]), from, Zeroes(to - from))
  {
    ghost var b := buf[..];
    var i := from;
    while i < to
      invariant from <= i <= to
      invariant buf[..] == Written(b, from, Zeroes(i - from))
    {
      buf[i] := 48;
      i := i + 1;
    }
  }

  /** What puts prints. */
  method ReadString(buf: array<byte>, from: nat) returns (out: seq<byte>)
    requires from <= buf.Length && 0 in buf[..][from..]
    ensures out == StringAt(buf[..], from)
  {
    var len := StrlenAt(buf, from);
    out := buf[from..from + len];
  }

  function Zeroes(n: nat): (r: seq<byte>)
    ensures |r| == n && forall k :: 0 <= k < n ==> r[k] == 48
  {
    seq(n, _ => 48)
  }

  lemma Padded(b: seq<byte>, start: nat, s: seq<byte>)
    requires start == |s| <= 8 && |b| == 64
    ensures Written(Written(b, 8, s + [0]), start, Zeroes(8 - start)) == Written(b, start, Pad(8 - start, s) + [0])
  {
  }

  function Pad(n: nat, s: seq<byte>): (r: seq<byte>)
    ensures |r| == n + |s|
  {
    Zeroes(n) + s
  }

  lemma {:induction false} PadParses(n: nat, s: seq<byte>, radix: Radix)
    requires IsNumeral(s, radix)
    ensures IsNumeral(Pad(n, s), radix) && Parse(Pad(n, s), radix) == Parse(s, radix)
    ensures 0 !in s ==> 0 !in Pad(n, s)
    decreases |s| + n
  {
    var r := Pad(n, s);
    if s == [] {
      if n > 0 {
        assert r[..|r| - 1] == Pad(n - 1, s);
        PadParses(n - 1, s, radix);
      }
    } else {
      assert r[..|r| - 1] == Pad(n, s[..|s| - 1]);
      PadParses(n, s[..|s| - 1], radix);
    }
  }

  lemma HexLength(value: uint32)
    ensures 1 <= |Numeral(value, 16)| <= 8
  {
    assert Power(16, 8) == TWO32 by {
      assert Power(16, 4) == 65536;
      assert Power(16, 8) == 16 * (16 * (16 * (16 * Power(16, 4))));
    }
    NumeralLength(value, 16, 8);
  }

  /** A 32-bit value has at most 32 digits in any radix, so itoa writes at most 33 bytes. */
  lemma WordLength(value: uint32, radix: Radix)
    ensures |Numeral(value, radix)| <= 32
  {
    PowerGrows(radix, 32);
    assert Power(2, 32) == TWO32 by {
      assert Power(2, 8) == 256;
      assert Power(2, 16) == 256 * Power(2, 8);
      assert Power(2, 24) == 256 * Power(2, 16);
      assert Power(2, 32) == 256 * Power(2, 24);
    }
    NumeralLength(value, radix, 32);
  }

  lemma {:induction false} PowerGrows(radix: Radix, n: nat)
    ensures Power(radix, n) >= Power(2, n) >= 1
  {
    if n > 0 {
      PowerGrows(radix, n - 1);
    }
  }
}
