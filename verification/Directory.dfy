/** Directory entries: looking one up by name, listing them, and finding an executable. */
module Directory {
  import opened Bytes
  import opened FileSystem

  datatype Option<T> = None | Some(value: T)

  // ---------- names ----------

  /** An entry's name: at most 32 bytes, without the padding. */
  function Name(d: Dentry): seq<byte> {
    CString(d.name, NAME_SIZE)
  }

  /** The memory at an entry's name: an unterminated name runs on into the type word. */
  function NameMemory(d: Dentry): seq<byte> {
    d.name + [d.fileType, 0, 0, 0]
  }

  /** The part of a requested file name that can matter. */
  function Key(fname: seq<byte>): seq<byte> {
    fname[..Min(|fname|, NAME_SIZE)]
  }

  /** What strlen sees at an entry: its name, plus the type byte behind an unterminated one. */
  lemma EntryStrlen(d: Dentry)
    requires |d.name| == NAME_SIZE
    ensures 0 in NameMemory(d) && NameMemory(d)[NAME_SIZE + 1] == 0
    ensures var s := CString(NameMemory(d), |NameMemory(d)|);
      Name(d) <= s && |s| <= NAME_SIZE + 1 && (|Name(d)| < NAME_SIZE ==> s == Name(d))
  {
    var m, k := NameMemory(d), |Name(d)|;
    assert m[NAME_SIZE + 1] == 0;
    assert Name(d) == m[..k];
    if k < NAME_SIZE {
      CStringIs(m, |m|, m[..k]);
    } else if d.fileType == 0 {
      CStringIs(m, |m|, m[..NAME_SIZE]);
    } else {
      CStringIs(m, |m|, m[..NAME_SIZE + 1]);
    }
  }

  /** Cutting an entry's memory at n bytes: the cut name, or more than 32 bytes of it. */
  lemma EntryCut(d: Dentry, n: nat)
    requires |d.name| == NAME_SIZE && n <= NAME_SIZE + 1
    ensures n <= NAME_SIZE ==> CString(NameMemory(d), n) == Name(d)[..Min(n, |Name(d)|)]
    ensures n > NAME_SIZE && |Name(d)| < NAME_SIZE ==> CString(NameMemory(d), n) == Name(d)
    ensures n > NAME_SIZE && |Name(d)| == NAME_SIZE ==> |CString(NameMemory(d), n)| >= NAME_SIZE
  {
    var m, k := NameMemory(d), |Name(d)|;
    assert Name(d) == m[..k];
    var j := Min(n, k);
    if k < NAME_SIZE || n <= NAME_SIZE {
      CStringIs(m, n, m[..j]);
    } else if d.fileType == 0 {
      CStringIs(m, n, m[..NAME_SIZE]);
    } else {
      CStringIs(m, n, m[..NAME_SIZE + 1]);
    }
  }

  // ---------- read_dentry_by_name ----------

  /** The compare length after looking at entries ds, with a request of 1..31 bytes: at least the
      request, and at least every entry looked at while it was not 32. */
  ghost predicate Covers(numBits: nat, fname: seq<byte>, d: Dentry)
    requires |d.name| == NAME_SIZE
  {
    && Min(|fname|, NAME_SIZE) <= numBits <= NAME_SIZE + 1
    && (|fname| >= NAME_SIZE ==> numBits == NAME_SIZE)
    && (numBits < NAME_SIZE ==> |Name(d)| <= numBits)
  }

  /** With such a compare length, equality of the cut strings is equality with the entry's name. */
  lemma CompareIsExact(numBits: nat, fname: seq<byte>, d: Dentry)
    requires |d.name| == NAME_SIZE && fname != [] && 0 !in fname && Covers(numBits, fname, d)
    ensures CString(fname + [0], numBits) == CString(NameMemory(d), numBits) <==> Name(d) == Key(fname)
  {
    var k := Min(|fname|, NAME_SIZE);
    CStringIs(fname + [0], numBits, (fname + [0])[..k]);
    assert (fname + [0])[..k] == Key(fname);
    EntryCut(d, numBits);
    if numBits < NAME_SIZE || |Name(d)| < NAME_SIZE {
      assert Name(d)[..|Name(d)|] == Name(d);
    }
  }

  method ReadDentryByName(img: Image, fname: seq<byte>) returns (r: Option<Dentry>)
    requires WellFormed(img) && 0 !in fname
    ensures r == Lookup(img, fname)
  {
    var len := Strlen(fname + [0]);
    WholeString(fname, len);
    var numBits := if len > NAME_SIZE then NAME_SIZE else len;
    if numBits == 0 {
      return None;
    }
    var i := 0;
    while i < NUM_DENTRIES
      invariant 0 <= i <= NUM_DENTRIES
      invariant Min(|fname|, NAME_SIZE) <= numBits <= NAME_SIZE + 1
      invariant |fname| >= NAME_SIZE ==> numBits == NAME_SIZE
      invariant Lookup(img, fname) == LookupFrom(img, Key(fname), i)
    {
      var found;
      found, numBits := IsNamed(img.dentries[i], fname, numBits);
      if found {
        return Some(img.dentries[i]);
      }
      i := i + 1;
    }
    return None;
  }

  /** One round of the search: the compare length grows to the entry's name before it is compared. */
  method IsNamed(d: Dentry, fname: seq<byte>, numBits0: nat) returns (found: bool, numBits: nat)
    requires |d.name| == NAME_SIZE && fname != [] && 0 !in fname
    requires Min(|fname|, NAME_SIZE) <= numBits0 <= NAME_SIZE + 1
    requires |fname| >= NAME_SIZE ==> numBits0 == NAME_SIZE
    ensures found <==> Name(d) == Key(fname)
    ensures numBits0 <= numBits <= NAME_SIZE + 1 && (|fname| >= NAME_SIZE ==> numBits == NAME_SIZE)
  {
    hide CString;
    EntryStrlen(d);
    numBits := numBits0;
    if numBits != NAME_SIZE {
      var entryLen := Strlen(NameMemory(d));
      SameLength(NameMemory(d), entryLen);
      numBits := if entryLen > numBits then entryLen else numBits;
    }
    CompareIsExact(numBits, fname, d);
    var c := Strncmp(fname + [0], NameMemory(d), numBits);
    found := c == 0;
  }

  lemma WholeString(fname: seq<byte>, len: nat)
    requires 0 !in fname && len < |fname + [0]| && (fname + [0])[..len] == CString(fname + [0], |fname + [0]|)
    ensures len == |fname|
  {
    CStringIs(fname + [0], |fname| + 1, fname);
  }

  lemma SameLength(m: seq<byte>, n: nat)
    requires n <= |m| && m[..n] == CString(m, |m|)
    ensures n == |CString(m, |m|)|
  {
  }

  /** The entry that a name denotes: the first with that name. */
  function Lookup(img: Image, fname: seq<byte>): Option<Dentry>
    requires |img.dentries| == NUM_DENTRIES
  {
    if fname == [] then None else LookupFrom(img, Key(fname), 0)
  }

  function LookupFrom(img: Image, key: seq<byte>, i: nat): Option<Dentry>
    requires |img.dentries| == NUM_DENTRIES && i <= NUM_DENTRIES
    decreases |img.dentries| - i
  {
    if i == NUM_DENTRIES then None
    else if Name(img.dentries[i]) == key then Some(img.dentries[i])
    else LookupFrom(img, key, i + 1)
  }

  /** Entry i is the first one whose name is `key`. */
  predicate FirstNamed(img: Image, key: seq<byte>, i: int)
    requires |img.dentries| == NUM_DENTRIES && 0 <= i < NUM_DENTRIES
  {
    Name(img.dentries[i]) == key && forall j :: 0 <= j < i ==> Name(img.dentries[j]) != key
  }

  lemma {:induction false} LookupFromMeaning(img: Image, key: seq<byte>, i: nat)
    requires |img.dentries| == NUM_DENTRIES && i <= NUM_DENTRIES
    requires forall j :: 0 <= j < i ==> Name(img.dentries[j]) != key
    ensures LookupFrom(img, key, i) == None <==> forall k :: 0 <= k < NUM_DENTRIES ==> Name(img.dentries[k]) != key
    ensures LookupFrom(img, key, i).Some? ==>
      exists k :: 0 <= k < NUM_DENTRIES && FirstNamed(img, key, k) && LookupFrom(img, key, i).value == img.dentries[k]
    decreases NUM_DENTRIES - i
  {
    if i < NUM_DENTRIES {
      if Name(img.dentries[i]) == key {
        assert FirstNamed(img, key, i);
      } else {
        LookupFromMeaning(img, key, i + 1);
      }
    }
  }

  /** A request finds the first entry whose name is its first 32 bytes, and nothing only if there is
      none or the request is empty. A request of at most 31 bytes is its own key. */
  lemma LookupMeaning(img: Image, fname: seq<byte>)
    requires |img.dentries| == NUM_DENTRIES
    ensures Lookup(img, fname) == None <==>
      fname == [] || forall k :: 0 <= k < NUM_DENTRIES ==> Name(img.dentries[k]) != Key(fname)
    ensures Lookup(img, fname).Some? ==>
      exists k :: 0 <= k < NUM_DENTRIES && FirstNamed(img, Key(fname), k) && Lookup(img, fname).value == img.dentries[k]
    ensures Key(fname) == if |fname| <= 32 then fname else fname[..32]
  {
    LookupFromMeaning(img, Key(fname), 0);
  }

  // ---------- read_dentry_by_index and dir_read ----------

  function ReadDentryByIndex(img: Image, index: uint32): Option<Dentry>
    requires WellFormed(img)
  {
    if index >= NUM_DENTRIES then None else Some(img.dentries[index])
  }

  /** How many bytes of an entry's name a directory read of nbytes delivers. */
  function DirCount(d: Dentry, nbytes: int): nat {
    Min(U32(nbytes), |CString(NameMemory(d), |NameMemory(d)|)|)
  }

  /** A directory read of up to 32 bytes delivers the beginning of the name, one of 32 bytes all of it. */
  lemma FullNameRead(d: Dentry, nbytes: int)
    requires |d.name| == NAME_SIZE && 0 <= nbytes <= 32
    ensures DirCount(d, nbytes) == Min(nbytes, |Name(d)|)
    ensures NameMemory(d)[..DirCount(d, nbytes)] == Name(d)[..Min(nbytes, |Name(d)|)]
    ensures |Name(d)| <= 32 && Name(d)[..|Name(d)|] == Name(d)
  {
    EntryStrlen(d);
  }

  /** A name is what precedes the first NUL of the 32 bytes. */
  lemma NameIs(d: Dentry, name: seq<byte>)
    requires |d.name| == 32 && |name| <= 32 && name <= d.name && 0 !in name
    requires |name| < 32 ==> d.name[|name|] == 0
    ensures Name(d) == name
  {
    CStringIs(d.name, NAME_SIZE, name);
  }

  ghost predicate DirFits(img: Image, offset: uint32, nbytes: int, b: seq<byte>, base: nat)
    requires WellFormed(img)
  {
    base <= |b| && (offset < NUM_DENTRIES ==> base + DirCount(img.dentries[offset], nbytes) <= |b|)
  }

  ghost function DirEffect(img: Image, offset: uint32, nbytes: int, b: seq<byte>, base: nat): (seq<byte>, int)
    requires WellFormed(img) && DirFits(img, offset, nbytes, b, base)
  {
    if offset >= NUM_DENTRIES then (b, FAILURE)
    else
      var n := DirCount(img.dentries[offset], nbytes);
      (b[..base] + NameMemory(img.dentries[offset])[..n] + b[base + n..], n)
  }

  method DirRead(img: Image, buf: array<byte>, base: nat, nbytes: int, offset: uint32) returns (r: int)
    requires Clearable(buf[..], base) && WellFormed(img) && DirFits(img, offset, nbytes, buf[..], base)
    modifies buf
    ensures (buf[..], r) == DirEffect(img, offset, nbytes, Cleared(old(buf[..]), base), base)
  {
    ClearBuffer(buf, base);
    var dir := ReadDentryByIndex(img, offset);
    if dir == None {
      return FAILURE;
    }
    r := CopyName(dir.value, buf, base, nbytes);
  }

  /** The second half of dir_read: as much of the name as is wanted. */
  method CopyName(d: Dentry, buf: array<byte>, base: nat, nbytes: int) returns (n: nat)
    requires |d.name| == NAME_SIZE && base + DirCount(d, nbytes) <= buf.Length
    modifies buf
    ensures n == DirCount(d, nbytes)
    ensures buf[..] == old(buf[..])[..base] + NameMemory(d)[..n] + old(buf[..])[base + n..]
  {
    var name := NameMemory(d);
    EntryStrlen(d);
    var len := Strlen(name);
    SameLength(name, len);
    n := if U32(nbytes) > len then len else U32(nbytes);
    CStringIs(name, n, name[..n]);
    Strncpy(buf, base, name, n);
    assert name[..n] + Zeros(0) == name[..n];
  }

  method Strncpy(dest: array<byte>, base: nat, src: seq<byte>, n: nat)
    requires base + n <= dest.Length && n < |src|
    modifies dest
    ensures dest[..] == old(dest[..])[..base] + (CString(src, n) + Zeros(n - |CString(src,
        n)|)) + old(dest[..])[base + n..]
  {
    var i := 0;
    ghost var c := CString(src, n);
    while src[i] != 0 && i < n
      invariant 0 <= i <= |c|
      invariant forall k :: 0 <= k < dest.Length ==> dest[k] == if base <= k < base + i then src[k - base]
          else old(dest[k])
      decreases n - i
    {
      dest[base + i] := src[i];
      i := i + 1;
    }
    while i < n
      invariant |c| <= i <= n
      invariant forall k :: 0 <= k < dest.Length ==>
        dest[k] == if base <= k < base + |c| then c[k - base] else if base + |c| <= k < base + i then 0
            else old(dest[k])
    {
      dest[base + i] := 0;
      i := i + 1;
    }
  }
}
