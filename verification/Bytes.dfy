/** Bytes, 32-bit integers and C strings in memory. */
module Bytes {
  type byte = b: int | 0 <= b < 256

  const NEWLINE: byte := 10
  const TWO32: int := 0x1_0000_0000
  const TWO31: int := 0x8000_0000

  type uint32 = n: int | 0 <= n < TWO32

  /** Conversion of any integer to uint32_t. */
  function U32(n: int): uint32 {
    n % TWO32
  }

  /** Conversion of any integer to int32_t. */
  function I32(n: int): int {
    var u := n % TWO32;
    if u < TWO31 then u else u - TWO32
  }

  function Min(x: int, y: int): int {
    if x < y then x else y
  }

  function Zeros(n: nat): (s: seq<byte>)
    ensures |s| == n && forall k :: 0 <= k < n ==> s[k] == 0
  {
    seq(n, _ => 0)
  }

  /** Memory with `data` written at `at`. */
  function Written(m: seq<byte>, at: nat, data: seq<byte>): (r: seq<byte>)
    requires at + |data| <= |m|
    ensures |r| == |m|
    ensures forall k :: 0 <= k < |m| ==> r[k] == if at <= k < at + |data| then data[k - at] else m[k]
  {
    m[..at] + data + m[at + |data|..]
  }

  /** How many bytes precede the first NUL at or after `from`, counting at most `max` and not past
      the end of s. */
  function LengthBeforeNul(s: seq<byte>, from: nat, max: nat): (n: nat)
    requires from <= |s|
    ensures n <= max && from + n <= |s|
    ensures forall k :: from <= k < from + n ==> s[k] != 0
    ensures n == max || from + n == |s| || s[from + n] == 0
    decreases |s| - from
  {
    if max == 0 || from == |s| || s[from] == 0 then 0 else 1 + LengthBeforeNul(s, from + 1, max - 1)
  }

  /** The C string at the start of s, cut after n bytes. */
  function CString(s: seq<byte>, n: nat): (r: seq<byte>)
    ensures |r| <= n && r <= s && 0 !in r
  {
    s[..LengthBeforeNul(s, 0, n)]
  }

  /** A prefix without NUL that is followed by a NUL, or cut by n, is the C string. */
  lemma CStringIs(s: seq<byte>, n: nat, r: seq<byte>)
    requires r <= s && 0 !in r && |r| <= n
    requires |r| == n || |r| == |s| || s[|r|] == 0
    ensures CString(s, n) == r
  {
    assert forall j :: 0 <= j < |r| ==> s[j] == r[j] && r[j] in r;
  }

  method Strlen(s: seq<byte>) returns (len: nat)
    requires 0 in s
    ensures len < |s| && s[..len] == CString(s, |s|) && s[len] == 0
  {
    len := 0;
    while s[len] != 0
      invariant len < |s| && 0 !in s[..len]
      invariant 0 in s[len..]
      decreases |s| - len
    {
      len := len + 1;
    }
    CStringIs(s, |s|, s[..len]);
  }

  /** strncmp: zero exactly when the two C strings, cut after n bytes, are equal. */
  method Strncmp(s: seq<byte>, t: seq<byte>, n: nat) returns (r: int)
    requires n <= |s| || 0 in s
    requires n <= |t| || 0 in t
    ensures r == 0 <==> CString(s, n) == CString(t, n)
  {
    var i := 0;
    assert s[..|s|] == s && t[..|t|] == t;
    while i < n
      invariant i <= n && i <= |s| && i <= |t| && s[..i] == t[..i] && 0 !in s[..i]
    {
      if s[i] != t[i] || s[i] == 0 {
        StoppedAt(s, t, n, i);
        return s[i] as int - t[i] as int;
      }
      i := i + 1;
    }
    CStringIs(s, n, s[..n]);
    CStringIs(t, n, t[..n]);
    return 0;
  }

  /** Where two equal beginnings end, in a NUL or in a difference, decides the comparison. */
  lemma StoppedAt(s: seq<byte>, t: seq<byte>, n: nat, i: nat)
    requires i < n && i < |s| && i < |t| && s[..i] == t[..i] && 0 !in s[..i]
    requires s[i] != t[i] || s[i] == 0
    ensures CString(s, n) == CString(t, n) <==> s[i] == t[i]
  {
    if s[i] == t[i] {
      CStringIs(s, n, s[..i]);
      CStringIs(t, n, t[..i]);
    } else {
      var x, y := LengthBeforeNul(s, 0, n), LengthBeforeNul(t, 0, n);
      assert forall k :: 0 <= k < i ==> s[k] == s[..i][k] && t[k] == t[..i][k];
      assert x >= i && y >= i;
      assert CString(s, n) == s[..x] && CString(t, n) == t[..y];
      if x == y && x > i {
        assert s[..x][i] != t[..y][i];
      }
    }
  }
}
