/** The kernel's memmove, memcpy and memset on one flat memory. An address is an index. */
module MemoryOps {
  import opened Bytes

  /** n copies of the low byte of c. */
  function Filler(c: int, n: nat): (s: seq<byte>)
    ensures |s| == n && forall k :: 0 <= k < n ==> s[k] == c % 256
  {
    seq(n, _ => c % 256)
  }

  /** `now` is memory m after the n bytes at src have been written at dest. */
  ghost predicate Moved(m: seq<byte>, now: seq<byte>, dest: nat, src: nat, n: int)
    requires |now| == |m| && dest + n <= |m| && src + n <= |m|
  {
    && (forall k :: dest <= k < dest + n ==> now[k] == m[k - dest + src])
    && (forall k :: 0 <= k < |m| && !(dest <= k < dest + n) ==> now[k] == m[k])
  }

  lemma MovedIsWritten(m: seq<byte>, now: seq<byte>, dest: nat, src: nat, n: nat)
    requires |now| == |m| && dest + n <= |m| && src + n <= |m| && Moved(m, now, dest, src, n)
    ensures now == Written(m, dest, m[src..src + n])
  {
  }

  /** memmove leaves at dest the bytes that src held before the call, for every overlap. */
  method Memmove(mem: array<byte>, dest: nat, src: nat, n: nat)
    requires dest + n <= mem.Length && src + n <= mem.Length
    modifies mem
    ensures mem[..] == Written(old(mem[..]), dest, old(mem[src..src + n]))
  {
    ghost var m := mem[..];
    if src >= dest {
      var i := 0;
      while i < n
        invariant 0 <= i <= n
        invariant forall k :: dest <= k < dest + i ==> mem[k] == m[k - dest + src]
        invariant forall k :: 0 <= k < mem.Length && !(dest <= k < dest + i) ==> mem[k] == m[k]
      {
        assert mem[src + i] == m[src + i];
        mem[dest + i] := mem[src + i];
        i := i + 1;
      }
    } else {
      var i := n;
      while i > 0
        invariant 0 <= i <= n
        invariant forall k :: dest + i <= k < dest + n ==> mem[k] == m[k - dest + src]
        invariant forall k :: 0 <= k < mem.Length && !(dest + i <= k < dest + n) ==> mem[k] == m[k]
      {
        i := i - 1;
        assert mem[src + i] == m[src + i];
        mem[dest + i] := mem[src + i];
      }
    }
    MovedIsWritten(m, mem[..], dest, src, n);
  }

  // ---------- memcpy ----------

  /** How many bytes memcpy moves one by one before dest is at a word boundary. */
  function Head(dest: nat, n: nat): (h: nat)
    ensures h <= n && (h == n || (dest + h) % 4 == 0)
  {
    Min(n, (4 - dest % 4) % 4)
  }

  lemma BeforeHead(dest: nat, n: nat, k: nat)
    requires k <= Head(dest, n)
    ensures k < Head(dest, n) <==> k < n && (dest + k) % 4 != 0
  {
  }

  /** Where the last bytes start, which are again moved one by one. */
  function Tail(dest: nat, n: nat): (t: nat)
    ensures Head(dest, n) <= t <= n < t + 4 && (t - Head(dest, n)) % 4 == 0
  {
    Head(dest, n) + (n - Head(dest, n)) / 4 * 4
  }

  /** Whether byte k of a copy is read where the copy has already written: when dest lies d bytes
      above src, d at most k, and k is moved alone or among the first d bytes of its word. */
  predicate ReadsItself(dest: nat, src: nat, n: nat, k: int) {
    0 < dest - src <= k
    && (k < Head(dest, n) || k >= Tail(dest, n) || (k - Head(dest, n)) % 4 < dest - src)
  }

  /** Byte k of the copy is what src held, or what the copy had put there before. */
  ghost predicate Arrived(m: seq<byte>, now: seq<byte>, dest: nat, src: nat, n: nat, k: int)
    requires |now| == |m| && dest + n <= |m| && src + n <= |m| && 0 <= k < n
  {
    now[dest + k] == if ReadsItself(dest, src, n, k) then now[src + k] else m[src + k]
  }

  /** Memory m after the first `done` bytes have been copied: nothing else has changed. */
  ghost predicate Copied(m: seq<byte>, now: seq<byte>, dest: nat, src: nat, n: nat, done: nat) {
    && done <= n && |now| == |m| && dest + n <= |m| && src + n <= |m|
    && (forall i :: 0 <= i < |m| && !(dest <= i < dest + done) ==> now[i] == m[i])
    && (forall k :: 0 <= k < done ==> Arrived(m, now, dest, src, n, k))
  }

  /** One move of `width` bytes, all read before any is written. */
  lemma Step(m: seq<byte>, b: seq<byte>, now: seq<byte>, dest: nat, src: nat, n: nat, k: nat, width: nat)
    requires Copied(m, b, dest, src, n, k) && k + width <= n && |now| == |b|
    requires forall i :: 0 <= i < |b| && !(dest + k <= i < dest + k + width) ==> now[i] == b[i]
    requires forall i :: dest + k <= i < dest + k + width ==> now[i] == b[i - dest + src]
    requires forall j :: k <= j < k + width ==> (ReadsItself(dest, src, n, j) <==>
        0 < dest - src <= j && j - (dest - src) < k)
    ensures Copied(m, now, dest, src, n, k + width)
  {
    forall j | 0 <= j < k + width
      ensures Arrived(m, now, dest, src, n, j)
    {
      if j < k {
        assert Arrived(m, b, dest, src, n, j);
        assert now[dest + j] == b[dest + j];
        assert ReadsItself(dest, src, n, j) ==> now[src + j] == b[src + j];
      } else {
        assert now[dest + j] == b[src + j];
        assert ReadsItself(dest, src, n, j) ==> now[src + j] == b[src + j];
      }
    }
  }

  lemma ByteCopied(m: seq<byte>, b: seq<byte>, dest: nat, src: nat, n: nat, k: nat)
    requires k < n && Copied(m, b, dest, src, n, k) && (k < Head(dest, n) || k >= Tail(dest, n))
    ensures Copied(m, b[dest + k := b[src + k]], dest, src, n, k + 1)
  {
    Step(m, b, b[dest + k := b[src + k]], dest, src, n, k, 1);
  }

  lemma WordCopied(m: seq<byte>, b: seq<byte>, now: seq<byte>, dest: nat, src: nat, n: nat, k: nat)
    requires AtWord(dest, n, k) && Copied(m, b, dest, src, n, k) && |now| == |b|
    requires forall i :: 0 <= i < |b| && !(dest + k <= i < dest + k + 4) ==> now[i] == b[i]
    requires forall i :: dest + k <= i < dest + k + 4 ==> now[i] == b[i - dest + src]
    ensures Copied(m, now, dest, src, n, k + 4)
  {
    forall j | k <= j < k + 4
      ensures ReadsItself(dest, src, n, j) <==> 0 < dest - src <= j && j - (dest - src) < k
    {
      InWord(k - Head(dest, n), j - k);
    }
    Step(m, b, now, dest, src, n, k, 4);
  }

  /** A word of the copy starts at byte k. */
  predicate AtWord(dest: nat, n: nat, k: nat) {
    Head(dest, n) <= k && k + 4 <= Tail(dest, n) && (k - Head(dest, n)) % 4 == 0
  }

  lemma InWord(start: nat, j: nat)
    requires start % 4 == 0 && j < 4
    ensures (start + j) % 4 == j
  {
  }

  /** dest holds what src held exactly when every byte that is read from the copy itself is the same
      as the byte dest - src before it. */
  ghost predicate Undisturbed(m: seq<byte>, dest: nat, src: nat, n: nat)
    requires dest + n <= |m| && src + n <= |m|
  {
    forall k :: 0 <= k < n && ReadsItself(dest, src, n, k) ==> m[src + k] == m[src + k - (dest - src)]
  }

  lemma CopiedIff(m: seq<byte>, now: seq<byte>, dest: nat, src: nat, n: nat)
    requires dest + n <= |m| && src + n <= |m| && Copied(m, now, dest, src, n, n)
    ensures now == Written(m, dest, m[src..src + n]) <==> Undisturbed(m, dest, src, n)
  {
    var w := Written(m, dest, m[src..src + n]);
    if now == w {
      forall k | 0 <= k < n && ReadsItself(dest, src, n, k)
        ensures m[src + k] == m[src + k - (dest - src)]
      {
        assert Arrived(m, now, dest, src, n, k);
        assert w[dest + k] == m[src + k];
        assert w[src + k] == m[src + k - (dest - src)];
      }
    }
    if Undisturbed(m, dest, src, n) {
      forall i | 0 <= i < |m|
        ensures now[i] == w[i]
      {
        if dest <= i < dest + n {
          SameAsSource(m, now, dest, src, n, i - dest);
        }
      }
    }
  }

  lemma {:induction false} SameAsSource(m: seq<byte>, now: seq<byte>, dest: nat, src: nat, n: nat, k: nat)
    requires dest + n <= |m| && src + n <= |m| && Copied(m, now, dest, src, n, n) && Undisturbed(m, dest, src, n)
        && k < n
    ensures now[dest + k] == m[src + k]
    decreases k
  {
    assert Arrived(m, now, dest, src, n, k);
    if ReadsItself(dest, src, n, k) {
      SameAsSource(m, now, dest, src, n, k - (dest - src));
    }
  }

  /** Without an overlap from above, nothing is read from the copy itself. */
  lemma ApartIsUndisturbed(m: seq<byte>, dest: nat, src: nat, n: nat)
    requires dest + n <= |m| && src + n <= |m| && (dest <= src || src + n <= dest)
    ensures Undisturbed(m, dest, src, n)
  {
  }

  /** Copying two different bytes one place up loses one: the second is overwritten before it is read. */
  lemma OverlapFromAboveLosesBytes(m: seq<byte>, n: nat)
    requires |m| == 3 && m[0] != m[1] && n == 2
    ensures !Undisturbed(m, 1, 0, n)
  {
    assert ReadsItself(1, 0, n, 1);
  }

  /** memcpy: bytes up to a word boundary of dest, then words, then the last bytes. At every alignment,
      length and overlap it changes no other byte, and it leaves at dest what src held exactly when
      that is undisturbed; so it always does unless dest overlaps src from above. */
  method Memcpy(mem: array<byte>, dest: nat, src: nat, n: nat)
    requires dest + n <= mem.Length && src + n <= mem.Length
    modifies mem
    ensures mem[..] == Written(old(mem[..]), dest, old(mem[src..src + n])) <==> Undisturbed(old(mem[..]), dest, src, n)
    ensures dest <= src || src + n <= dest ==> mem[..] == Written(old(mem[..]), dest, old(mem[src..src + n]))
    ensures forall k :: 0 <= k < mem.Length && !(dest <= k < dest + n) ==> mem[k] == old(mem[k])
  {
    ghost var m := mem[..];
    assert mem[src..src + n] == m[src..src + n];
    CopyHead(mem, dest, src, n, m);
    CopyWords(mem, dest, src, n, m);
    CopyTail(mem, dest, src, n, m);
    CopiedIff(m, mem[..], dest, src, n);
    if dest <= src || src + n <= dest {
      ApartIsUndisturbed(m, dest, src, n);
    }
  }

  /** Single bytes, up to a word boundary of dest. */
  method CopyHead(mem: array<byte>, dest: nat, src: nat, n: nat, ghost m: seq<byte>)
    requires dest + n <= mem.Length && src + n <= mem.Length && m == mem[..]
    modifies mem
    ensures Copied(m, mem[..], dest, src, n, Head(dest, n))
  {
    var k := 0;
    BeforeHead(dest, n, k);
    while k < n && (dest + k) % 4 != 0
      invariant k <= Head(dest, n) && (k < Head(dest, n) <==> k < n && (dest + k) % 4 != 0)
      invariant Copied(m, mem[..], dest, src, n, k)
    {
      ByteCopied(m, mem[..], dest, src, n, k);
      ghost var b := mem[..];
      mem[dest + k] := mem[src + k];
      assert mem[..] == b[dest + k := b[src + k]];
      k := k + 1;
      BeforeHead(dest, n, k);
    }
  }

  /** rep movsl, forward. */
  method CopyWords(mem: array<byte>, dest: nat, src: nat, n: nat, ghost m: seq<byte>)
    requires |m| == mem.Length && Copied(m, mem[..], dest, src, n, Head(dest, n))
    modifies mem
    ensures Copied(m, mem[..], dest, src, n, Tail(dest, n))
  {
    var k := Head(dest, n);
    var words := (n - k) / 4;
    while words > 0
      invariant words >= 0 && k + 4 * words == Tail(dest, n)
      invariant Head(dest, n) <= k && (k - Head(dest, n)) % 4 == 0
      invariant Copied(m, mem[..], dest, src, n, k)
    {
      ghost var b := mem[..];
      MoveWord(mem, dest + k, src + k);
      WordCopied(m, b, mem[..], dest, src, n, k);
      k := k + 4;
      words := words - 1;
    }
  }

  /** movsl: all four bytes are read before any is written. */
  method MoveWord(mem: array<byte>, d: nat, s: nat)
    requires d + 4 <= mem.Length && s + 4 <= mem.Length
    modifies mem
    ensures forall i :: 0 <= i < mem.Length && !(d <= i < d + 4) ==> mem[i] == old(mem[i])
    ensures forall i :: d <= i < d + 4 ==> mem[i] == old(mem[..])[i - d + s]
  {
    mem[d], mem[d + 1], mem[d + 2], mem[d + 3] := mem[s], mem[s + 1], mem[s + 2], mem[s + 3];
  }

  /** The last bytes, one by one. */
  method CopyTail(mem: array<byte>, dest: nat, src: nat, n: nat, ghost m: seq<byte>)
    requires |m| == mem.Length && Copied(m, mem[..], dest, src, n, Tail(dest, n))
    modifies mem
    ensures Copied(m, mem[..], dest, src, n, n)
  {
    var k := Tail(dest, n);
    while k < n
      invariant Tail(dest, n) <= k <= n && Copied(m, mem[..], dest, src, n, k)
    {
      ByteCopied(m, mem[..], dest, src, n, k);
      ghost var b := mem[..];
      mem[dest + k] := mem[src + k];
      assert mem[..] == b[dest + k := b[src + k]];
      k := k + 1;
    }
  }

  /** memset, with the same three parts, stores the low byte of c in exactly n bytes. */
  method Memset(mem: array<byte>, at: nat, c: int, n: nat)
    requires at + n <= mem.Length
    modifies mem
    ensures mem[..] == Written(old(mem[..]), at, Filler(c, n))
  {
    ghost var m := mem[..];
    var b := c % 256;
    var done := 0;
    while done < n && (at + done) % 4 != 0
      invariant 0 <= done <= n
      invariant forall k :: 0 <= k < mem.Length ==> mem[k] == if at <= k < at + done then b else m[k]
    {
      mem[at + done] := b;
      done := done + 1;
    }
    var words, bytes := (n - done) / 4, (n - done) % 4;
    while words > 0
      invariant words >= 0 && done + 4 * words + bytes == n && done >= 0
      invariant forall k :: 0 <= k < mem.Length ==> mem[k] == if at <= k < at + done then b else m[k]
    {
      var d := at + done;
      mem[d], mem[d + 1], mem[d + 2], mem[d + 3] := b, b, b, b;
      done := done + 4;
      words := words - 1;
    }
    while bytes > 0
      invariant 0 <= bytes && done + bytes == n && done >= 0
      invariant forall k :: 0 <= k < mem.Length ==> mem[k] == if at <= k < at + done then b else m[k]
    {
      mem[at + done] := b;
      done := done + 1;
      bytes := bytes - 1;
    }
    assert mem[..] == Written(m, at, Filler(c, n));
  }
}
