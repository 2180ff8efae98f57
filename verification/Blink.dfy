/** The blink list: a linked list that lives inside a slot allocator, and the tick that walks it. */
module Blink {
  import opened Waveform

  const SLOTS: int := 2000
  const NULL: int := -1

  type char8 = c: int | 0 <= c < 256

  /** struct mp1_blink_struct; `next` is the index of a slot, or NULL. */
  datatype Slot = Slot(location: uint16, onChar: char8, offChar: char8, timer: Timer, next: int)

  const FREE_SLOT: Slot := Slot(0, 0, 0, Timer(0, 0, 0, 0), 0)

  /** What a caller asks for; the other fields of its structure are overwritten. */
  datatype Request = Request(location: uint16, onChar: char8, offChar: char8, onLength: uint16, offLength: uint16)

  /** An entry of the list: what was asked for, and how many ticks ago. */
  datatype Entry = Entry(what: Request, age: nat)

  ghost predicate Holds(s: Slot, e: Entry) {
    && s.location == e.what.location && s.onChar == e.what.onChar && s.offChar == e.what.offChar
    && s.timer == After(e.what.onLength, e.what.offLength, e.age)
  }

  // ---------- the list as a sequence of entries, the newest first ----------

  /** The index of the newest entry at a location, or the length of the list. */
  function Newest(es: seq<Entry>, location: uint16): (i: nat)
    ensures i <= |es| && (i < |es| ==> es[i].what.location == location)
    ensures forall k :: 0 <= k < i ==> es[k].what.location != location
  {
    if es == [] || es[0].what.location == location then 0 else 1 + Newest(es[1..], location)
  }

  function Without<T>(s: seq<T>, i: nat): (r: seq<T>)
    requires i < |s|
    ensures |r| == |s| - 1
    ensures forall k :: 0 <= k < |s| - 1 ==> r[k] == if k < i then s[k] else s[k + 1]
  {
    s[..i] + s[i + 1..]
  }

  function Older(e: Entry): Entry {
    e.(age := e.age + 1)
  }

  function AllOlder(es: seq<Entry>): (r: seq<Entry>)
    ensures |r| == |es| && forall i :: 0 <= i < |es| ==> r[i] == Older(es[i])
  {
    if es == [] then [] else [Older(es[0])] + AllOlder(es[1..])
  }

  // ---------- the screen ----------

  function Face(e: Entry): char8 {
    if On(e.what.onLength, e.what.offLength, e.age) then e.what.onChar else e.what.offChar
  }

  /** What a tick paints for one entry: its new character, if it switches. */
  function Paint(screen: seq<char8>, e: Entry): (r: seq<char8>)
    requires |screen| == 2 * SLOTS && e.what.location < SLOTS
    ensures |r| == |screen|
  {
    if On(e.what.onLength, e.what.offLength, e.age + 1) != On(e.what.onLength, e.what.offLength, e.age)
    then screen[2 * e.what.location := Face(Older(e))] else screen
  }

  function PaintAll(screen: seq<char8>, es: seq<Entry>): (r: seq<char8>)
    requires |screen| == 2 * SLOTS && forall i :: 0 <= i < |es| ==> es[i].what.location < SLOTS
    ensures |r| == |screen|
    decreases |es|
  {
    if es == [] then screen else PaintAll(Paint(screen, es[0]), es[1..])
  }

  /** No two entries share a location. */
  ghost predicate Apart(es: seq<Entry>) {
    forall i, j :: 0 <= i < j < |es| ==> es[i].what.location != es[j].what.location
  }

  /** The screen shows every entry's character. */
  ghost predicate Shown(screen: seq<char8>, es: seq<Entry>) {
    |screen| == 2 * SLOTS
    && forall i :: 0 <= i < |es| ==> es[i].what.location < SLOTS && screen[2 * es[i].what.location] == Face(es[i])
  }

  lemma {:induction false} PaintElsewhere(screen: seq<char8>, es: seq<Entry>, location: uint16)
    requires |screen| == 2 * SLOTS && location < SLOTS
    requires forall i :: 0 <= i < |es| ==> es[i].what.location < SLOTS && es[i].what.location != location
    ensures PaintAll(screen, es)[2 * location] == screen[2 * location]
    decreases |es|
  {
    if es != [] {
      PaintElsewhere(Paint(screen, es[0]), es[1..], location);
    }
  }

  lemma {:induction false} PaintedAt(screen: seq<char8>, es: seq<Entry>, i: nat)
    requires i < |es| && Apart(es) && |screen| == 2 * SLOTS
    requires forall k :: 0 <= k < |es| ==> es[k].what.location < SLOTS
    requires screen[2 * es[i].what.location] == Face(es[i])
    ensures PaintAll(screen, es)[2 * es[i].what.location] == Face(Older(es[i]))
    decreases i
  {
    if i == 0 {
      PaintElsewhere(Paint(screen, es[0]), es[1..], es[0].what.location);
    } else {
      PaintedAt(Paint(screen, es[0]), es[1..], i - 1);
    }
  }

  /** A tick paints characters only, never an attribute. */
  lemma {:induction false} AttributesStay(screen: seq<char8>, es: seq<Entry>, k: int)
    requires |screen| == 2 * SLOTS && 0 <= k < SLOTS && forall i :: 0 <= i < |es| ==> es[i].what.location < SLOTS
    ensures PaintAll(screen, es)[2 * k + 1] == screen[2 * k + 1]
    decreases |es|
  {
    if es != [] {
      AttributesStay(Paint(screen, es[0]), es[1..], k);
    }
  }

  lemma AllAttributesStay(screen: seq<char8>, now: seq<char8>, es: seq<Entry>)
    requires |screen| == 2 * SLOTS && forall i :: 0 <= i < |es| ==> es[i].what.location < SLOTS
    requires now == PaintAll(screen, es)
    ensures forall k :: 0 <= k < SLOTS ==> now[2 * k + 1] == screen[2 * k + 1]
  {
    forall k | 0 <= k < SLOTS
      ensures now[2 * k + 1] == screen[2 * k + 1]
    {
      AttributesStay(screen, es, k);
    }
  }

  /** With one entry per location, a tick keeps the screen showing every entry's character. */
  lemma TickKeepsShown(screen: seq<char8>, es: seq<Entry>)
    requires Apart(es) && Shown(screen, es)
    ensures Shown(PaintAll(screen, es), AllOlder(es)) && Apart(AllOlder(es))
  {
    forall i | 0 <= i < |es|
      ensures PaintAll(screen, es)[2 * es[i].what.location] == Face(Older(es[i]))
    {
      PaintedAt(screen, es, i);
    }
  }

  /** Adding at a free location, and removing, keep it too. */
  lemma AddKeepsShown(screen: seq<char8>, es: seq<Entry>, what: Request)
    requires Apart(es) && Shown(screen, es) && what.location < SLOTS
    requires forall i :: 0 <= i < |es| ==> es[i].what.location != what.location
    ensures Apart([Entry(what, 0)] + es) && Shown(screen[2 * what.location := what.onChar], [Entry(what, 0)] + es)
  {
    WaveIsPeriodic(what.onLength, what.offLength, 0);
  }

  lemma RemoveKeepsShown(screen: seq<char8>, es: seq<Entry>, i: nat)
    requires Apart(es) && Shown(screen, es) && i < |es|
    ensures Apart(Without(es, i)) && Shown(screen, Without(es, i))
  {
  }

  // ---------- the slots ----------

  /** `list` runs from head through the next fields to NULL, without repetition. */
  ghost predicate Linked(slots: seq<Slot>, head: int, list: seq<int>) {
    && |slots| == SLOTS
    && (forall i :: 0 <= i < |list| ==> 0 <= list[i] < SLOTS)
    && (forall i, j :: 0 <= i < j < |list| ==> list[i] != list[j])
    && head == (if list == [] then NULL else list[0])
    && (forall i {:trigger slots[list[i]]} :: 0 <= i < |list| ==>
          slots[list[i]].next == if i + 1 < |list| then list[i + 1] else NULL)
  }

  /** The linked slots are exactly the ones in use, and hold the entries. */
  ghost predicate Stores(slots: seq<Slot>, list: seq<int>, es: seq<Entry>)
    requires |slots| == SLOTS && forall i :: 0 <= i < |list| ==> 0 <= list[i] < SLOTS
  {
    && |list| == |es|
    && (forall i :: 0 <= i < |es| ==> 0 < es[i].what.location < SLOTS)
    && (forall i {:trigger Holds(slots[list[i]], es[i])} :: 0 <= i < |es| ==> Holds(slots[list[i]], es[i]))
    && (forall p :: 0 <= p < SLOTS ==> (slots[p].location != 0 <==> p in list))
  }

  /** As many slots in use as there are slots means all of them. */
  lemma FullIff(list: seq<int>, n: nat)
    requires forall i :: 0 <= i < |list| ==> 0 <= list[i] < n
    requires forall i, j :: 0 <= i < j < |list| ==> list[i] != list[j]
    ensures |list| <= n
    ensures |list| == n <==> forall p :: 0 <= p < n ==> p in list
  {
    var s := set p | p in list;
    SetSize(list);
    assert s <= Below(n);
    SubsetSize(s, Below(n));
    if |list| == n {
      forall p | 0 <= p < n
        ensures p in list
      {
        assert p in Below(n) && p in s;
      }
    }
    if forall p :: 0 <= p < n ==> p in list {
      assert Below(n) <= s;
      SubsetSize(Below(n), s);
    }
  }

  lemma SubsetSize(s: set<int>, t: set<int>)
    requires s <= t
    ensures |s| <= |t| && (|s| == |t| ==> s == t)
  {
    assert t == s + (t - s);
    assert |t| == |s| + |t - s|;
  }

  lemma {:induction false} SetSize(list: seq<int>)
    requires forall i, j :: 0 <= i < j < |list| ==> list[i] != list[j]
    ensures |set p | p in list| == |list|
  {
    if list != [] {
      var n := |list| - 1;
      SetSize(list[..n]);
      assert (set p | p in list) == (set p | p in list[..n]) + {list[n]};
    }
  }

  ghost function Below(n: nat): (s: set<int>)
    ensures |s| == n && forall p :: p in s <==> 0 <= p < n
  {
    if n == 0 then {} else Below(n - 1) + {n - 1}
  }

  /** Pushing a slot that was free. */
  lemma Pushed(m: seq<Slot>, n: seq<Slot>, head: int, list: seq<int>, es: seq<Entry>, p: int, e: Entry)
    requires Linked(m, head, list) && Stores(m, list, es)
    requires 0 <= p < SLOTS == |n| && m[p].location == 0 && n == m[p := n[p]] && n[p].next == head
    requires Holds(n[p], e) && 0 < e.what.location < SLOTS
    ensures Linked(n, p, [p] + list) && Stores(n, [p] + list, [e] + es)
  {
    assert p !in list;
    PushedLinks(m, n, head, list, p);
    forall i | 0 <= i < |es|
      ensures Holds(n[([p] + list)[i + 1]], es[i])
    {
      assert Holds(m[list[i]], es[i]);
    }
  }

  lemma PushedLinks(m: seq<Slot>, n: seq<Slot>, head: int, list: seq<int>, p: int)
    requires Linked(m, head, list) && 0 <= p < SLOTS == |n| && p !in list
    requires n == m[p := n[p]] && n[p].next == head
    ensures Linked(n, p, [p] + list)
  {
    var l := [p] + list;
    forall i | 0 < i < |l|
      ensures n[l[i]].next == if i + 1 < |l| then l[i + 1] else NULL
    {
      assert l[i] == list[i - 1];
      assert m[list[i - 1]].next == if i < |list| then list[i] else NULL;
    }
  }

  /** The slots after the i-th one of the list is taken out and cleared. */
  function Cut(m: seq<Slot>, list: seq<int>, i: nat): (n: seq<Slot>)
    requires |m| == SLOTS && i < |list| && forall k :: 0 <= k < |list| ==> 0 <= list[k] < SLOTS
    requires i > 0 ==> list[i - 1] != list[i]
    ensures |n| == SLOTS && n[list[i]] == FREE_SLOT
    ensures i > 0 ==> n[list[i - 1]] == m[list[i - 1]].(next := m[list[i]].next)
    ensures forall p :: 0 <= p < SLOTS && p != list[i] && !(i > 0 && p == list[i - 1]) ==> n[p] == m[p]
  {
    var bridged := if i == 0 then m else m[list[i - 1] := m[list[i - 1]].(next := m[list[i]].next)];
    bridged[list[i] := FREE_SLOT]
  }

  /** The place in the old list of the k-th element of the new one. */
  function OldPlace(i: nat, k: int): int {
    if k < i then k else k + 1
  }

  lemma CutLinked(m: seq<Slot>, head: int, list: seq<int>, i: nat)
    requires Linked(m, head, list) && i < |list|
    ensures Linked(Cut(m, list, i), if i == 0 then m[list[0]].next else head, Without(list, i))
  {
    var l, n := Without(list, i), Cut(m, list, i);
    assert m[list[i]].next == if i + 1 < |list| then list[i + 1] else NULL;
    forall k | 0 <= k < |l|
      ensures n[l[k]].next == if k + 1 < |l| then l[k + 1] else NULL
    {
      var j := OldPlace(i, k);
      assert l[k] == list[j] && list[j] != list[i];
      assert m[list[j]].next == if j + 1 < |list| then list[j + 1] else NULL;
    }
  }

  lemma CutStores(m: seq<Slot>, head: int, list: seq<int>, es: seq<Entry>, i: nat)
    requires Linked(m, head, list) && Stores(m, list, es) && i < |list|
    ensures Stores(Cut(m, list, i), Without(list, i), Without(es, i))
  {
    hide Holds;
    forall k | 0 <= k < |es| - 1
      ensures Holds(Cut(m, list, i)[Without(list, i)[k]], Without(es, i)[k])
    {
      CutHolds(m, head, list, es, i, k);
    }
    CutLocations(m, head, list, es, i);
  }

  lemma CutHolds(m: seq<Slot>, head: int, list: seq<int>, es: seq<Entry>, i: nat, k: nat)
    requires Linked(m, head, list) && Stores(m, list, es) && i < |list| && k < |list| - 1
    ensures 0 <= Without(list, i)[k] < SLOTS && Holds(Cut(m, list, i)[Without(list, i)[k]], Without(es, i)[k])
  {
    var j := OldPlace(i, k);
    assert Without(list, i)[k] == list[j] && list[j] != list[i];
    assert Holds(m[list[j]], es[j]);
  }

  lemma CutLocations(m: seq<Slot>, head: int, list: seq<int>, es: seq<Entry>, i: nat)
    requires Linked(m, head, list) && Stores(m, list, es) && i < |list|
    ensures forall p :: 0 <= p < SLOTS ==> (Cut(m, list, i)[p].location != 0 <==> p in Without(list, i))
  {
    forall p | 0 <= p < SLOTS
      ensures Cut(m, list, i)[p].location != 0 <==> p in Without(list, i)
    {
      InWithout(list, i, p);
    }
  }

  lemma InWithout(list: seq<int>, i: nat, p: int)
    requires i < |list| && forall j, k :: 0 <= j < k < |list| ==> list[j] != list[k]
    ensures p in Without(list, i) <==> p in list && p != list[i]
  {
    var l := Without(list, i);
    if p in list && p != list[i] {
      var j :| 0 <= j < |list| && list[j] == p;
      assert l[if j < i then j else j - 1] == p;
    }
    if p in l {
      var k :| 0 <= k < |l| && l[k] == p;
      assert list[OldPlace(i, k)] == p;
    }
  }

  // ---------- adding, to any list ----------

  /** The slot that mp1_malloc finds from slot i on, or NULL. */
  function FirstAvailable(m: seq<Slot>, i: nat): (p: int)
    requires i <= |m|
    ensures p != NULL ==> i <= p < |m| && m[p].location == 0 && forall k :: i <= k < p ==> m[k].location != 0
    ensures p == NULL <==> forall k :: i <= k < |m| ==> m[k].location != 0
    decreases |m| - i
  {
    if i == |m| then NULL else if m[i].location == 0 then i else FirstAvailable(m, i + 1)
  }

  /** What mp1_malloc returns is determined. */
  lemma MallocFinds(m: seq<Slot>, i: nat, p: int)
    requires i <= |m|
    requires p == NULL ==> forall k :: i <= k < |m| ==> m[k].location != 0
    requires p != NULL ==> i <= p < |m| && m[p].location == 0 && forall k :: i <= k < p ==> m[k].location != 0
    ensures FirstAvailable(m, i) == p
  {
  }

  /** A new entry's slot. */
  function NewSlot(what: Request, head: int): Slot {
    Slot(what.location, what.onChar, what.offChar, Timer(what.onLength, what.offLength, what.onLength, 1), head)
  }

  /** The slots and the head after an add, and its result, whether or not the list is intact. */
  function AddStep(m: seq<Slot>, head: int, what: Request): (seq<Slot>, int, int) {
    var p := FirstAvailable(m, 0);
    if what.location >= SLOTS || p == NULL then (m, head, -1) else (m[p := NewSlot(what, head)], p, 0)
  }

  /** On an intact list. */
  lemma AddToIntact(m: seq<Slot>, head: int, list: seq<int>, es: seq<Entry>, what: Request)
    requires |m| == SLOTS && what.location < SLOTS
    ensures var p := FirstAvailable(m, 0); var (n, h, r) := AddStep(m, head, what);
      Intact(m, head, list, es) ==>
        (r == -1 <==> |es| == SLOTS)
        && (r == 0 ==> (Intact(n, h, [p] + list, [Entry(what, 0)] + es) <==> what.location != 0))
  {
    if Intact(m, head, list, es) {
      FullIff(list, SLOTS);
      var p := FirstAvailable(m, 0);
      if p == NULL {
        assert forall k :: 0 <= k < SLOTS ==> k in list;
      } else {
        assert p !in list;
        var n := AddStep(m, head, what).0;
        if what.location != 0 {
          Pushed(m, n, head, list, es, p, Entry(what, 0));
        } else {
          assert ([p] + list)[0] == p && n[p].location == 0;
        }
      }
    }
  }

  ghost predicate Intact(m: seq<Slot>, head: int, list: seq<int>, es: seq<Entry>) {
    Linked(m, head, list) && Stores(m, list, es)
  }

  /** The node that n steps along the next fields lead to from p; NULL is the end. */
  function Walk(m: seq<Slot>, p: int, n: nat): int
    decreases n
  {
    if n == 0 || !(0 <= p < |m|) then p else Walk(m, m[p].next, n - 1)
  }

  lemma {:induction false} LoopNeverEnds(m: seq<Slot>, p: int, n: nat)
    requires 0 <= p < |m| && m[p].next == p
    ensures Walk(m, p, n) == p
  {
    if n > 0 {
      LoopNeverEnds(m, p, n - 1);
    }
  }

  /** After an add at location 0, the next add at a good location takes the same slot and makes it its
      own successor: the list is a loop of that one node, so no walk along it ever ends. Only a search
      for the node's own location stops. */
  lemma AddAfterZeroMakesALoop(m: seq<Slot>, head: int, zero: Request, what: Request, n: nat)
    requires |m| == SLOTS && zero.location == 0 && what.location < SLOTS
    requires AddStep(m, head, zero).2 == 0
    ensures var (m1, h1, _) := AddStep(m, head, zero);
      var (m2, h2, r) := AddStep(m1, h1, what);
      && r == 0 && h2 == h1 == FirstAvailable(m, 0)
      && m2[h2].next == h2 && m2[h2].location == what.location
      && Walk(m2, h2, n) == h2
  {
    var p := FirstAvailable(m, 0);
    var m1 := AddStep(m, head, zero).0;
    MallocFinds(m1, 0, p);
    LoopNeverEnds(AddStep(m1, p, what).0, p, n);
  }

  class List {
    const slots: array<Slot>
    const screen: array<char8>
    var head: int
    ghost var list: seq<int>
    ghost var entries: seq<Entry>

    ghost predicate Valid()
      reads this, slots, screen
    {
      && slots.Length == SLOTS && screen.Length == 2 * SLOTS
      && Intact(slots[..], head, list, entries)
    }

    /** The entries and the screen. */
    ghost function View(): (s: State)
      requires Valid()
      reads this, slots, screen
      ensures OnScreen(s)
    {
      State(entries, screen[..])
    }

    constructor ()
      ensures Valid() && entries == [] && fresh(slots) && fresh(screen)
    {
      slots := new Slot[SLOTS](_ => FREE_SLOT);
      screen := new char8[2 * SLOTS](_ => 0);
      head := NULL;
      list, entries := [], [];
    }

    /** The slots that the allocator takes to be free. */
    ghost function Available(): set<int>
      requires slots.Length == SLOTS
      reads this, slots
    {
      set p | 0 <= p < SLOTS && slots[p].location == 0
    }

    /** mp1_malloc: the first free slot, which stays free until its location is set. */
    method Malloc() returns (p: int)
      requires slots.Length == SLOTS
      ensures p == NULL <==> Available() == {}
      ensures p != NULL ==> p in Available() && forall q :: q in Available() ==> p <= q
    {
      var i := 0;
      while i < SLOTS
        invariant 0 <= i <= SLOTS && forall k :: 0 <= k < i ==> slots[k].location != 0
      {
        if slots[i].location == 0 {
          assert i in Available();
          return i;
        }
        i := i + 1;
      }
      return NULL;
    }

    /** mp1_ioctl_add. On an intact list it fails exactly on a bad location or when all slots are in
        use. A location of 0 is accepted but is the allocator's mark of a free slot, so exactly then the
        list is broken; what any add does to any list is AddStep. */
    method Add(what: Request) returns (r: int)
      requires slots.Length == SLOTS && screen.Length == 2 * SLOTS
      modifies this, slots, screen
      ensures (slots[..], head, r) == AddStep(old(slots[..]), old(head), what)
      ensures screen[..] == if r == 0 then old(screen[..])[2 * what.location := what.onChar] else old(screen[..])
      ensures old(Valid()) ==> (r == -1 <==> what.location >= 2000 || |old(entries)| == 2000)
      ensures entries == if r == 0 then [Entry(what, 0)] + old(entries) else old(entries)
      ensures old(Valid()) ==> (Valid() <==> r == -1 || what.location != 0)
      ensures old(Valid()) && Valid() ==> View() == Do(old(View()), AddOp(what))
    {
      if what.location >= SLOTS {
        return -1;
      }
      var temp := Slot(what.location, what.onChar, what.offChar,
                       Timer(what.onLength, what.offLength, what.onLength, 1), 0);
      var p := Malloc();
      assert forall k :: 0 <= k < SLOTS && slots[k].location == 0 ==> k in Available();
      MallocFinds(slots[..], 0, p);
      if p == NULL {
        AddToIntact(slots[..], head, list, entries, what);
        return -1;
      }
      AddToIntact(slots[..], head, list, entries, what);
      slots[p] := temp;
      slots[p] := slots[p].(next := head);
      head := p;
      assert slots[..] == old(slots[..])[p := NewSlot(what, old(head))];
      screen[2 * what.location] := slots[p].onChar;
      list, entries := [p] + list, [Entry(what, 0)] + entries;
      r := 0;
    }

    /** mp1_find_helper: the slot of the newest entry at a location. */
    method FindHelper(location: uint16) returns (p: int, ghost i: nat)
      requires Valid()
      ensures i == Newest(entries, location)
      ensures p == if Newest(entries, location) < |entries| then list[Newest(entries, location)] else NULL
    {
      p, i := head, 0;
      while p != NULL
        invariant i <= |list| && p == if i < |list| then list[i] else NULL
        invariant Newest(entries, location) == i + Newest(entries[i..], location)
        decreases |list| - i
      {
        assert slots[..][list[i]].next == if i + 1 < |list| then list[i + 1] else NULL;
        assert Holds(slots[list[i]], entries[i]);
        if location == slots[p].location {
          return;
        }
        p := slots[p].next;
        i := i + 1;
      }
    }

    /** mp1_ioctl_remove: the newest entry at the location goes, and no other. */
    method Remove(location: uint16) returns (r: int)
      requires Valid()
      modifies this, slots
      ensures Valid()
      ensures r == 0 || r == -1
      ensures r == -1 <==> forall i :: 0 <= i < |old(entries)| ==> old(entries)[i].what.location != location
      ensures entries == if r == 0 then Without(old(entries), Newest(old(entries), location)) else old(entries)
      ensures View() == Do(old(View()), RemoveOp(location)) && screen[..] == old(screen[..])
    {
      var p;
      ghost var i;
      p, i := FindHelper(location);
      if p == NULL {
        return -1;
      }
      Unlink(p, i);
      CutLinked(old(slots[..]), old(head), list, i);
      CutStores(old(slots[..]), old(head), list, entries, i);
      list, entries := Without(list, i), Without(entries, i);
      r := 0;
    }

    /** Take the i-th node out of the list and free its slot. */
    method Unlink(p: int, ghost i: nat)
      requires Valid() && i < |list| && p == list[i]
      modifies this`head, slots
      ensures slots[..] == Cut(old(slots[..]), list, i)
      ensures head == if i == 0 then old(slots[p].next) else old(head)
    {
      // edx points at the head when prev is NULL, and at prev's next field otherwise
      var prev := FindPrev(p, i);
      if prev == NULL {
        head := slots[p].next;
      } else {
        slots[prev] := slots[prev].(next := slots[p].next);
      }
      Free(p);
    }

    /** The walk from the head to the pointer that points at p. */
    method FindPrev(p: int, ghost i: nat) returns (prev: int)
      requires Valid() && i < |list| && p == list[i]
      ensures prev == if i == 0 then NULL else list[i - 1]
    {
      prev := NULL;
      var next := head;
      ghost var k := 0;
      while next != p
        invariant 0 <= k <= i && next == list[k] && prev == if k == 0 then NULL else list[k - 1]
        decreases i - k
      {
        assert slots[..][list[k]].next == list[k + 1];
        prev := next;
        next := slots[prev].next;
        k := k + 1;
      }
    }

    /** mp1_free: the slot, and no other, is available again. */
    method Free(p: int)
      requires slots.Length == SLOTS && 0 <= p < SLOTS
      modifies slots
      ensures slots[..] == old(slots[..])[p := FREE_SLOT]
      ensures Available() == old(Available()) + {p}
    {
      slots[p] := FREE_SLOT;
    }

    /** mp1_ioctl_find: the newest entry at the location, as it stands. */
    method Find(location: uint16) returns (r: int, found: Slot)
      requires Valid()
      ensures r == 0 || r == -1
      ensures r == -1 <==> forall i :: 0 <= i < |entries| ==> entries[i].what.location != location
      ensures r == 0 ==> Holds(found, entries[Newest(entries, location)])
    {
      var p;
      ghost var i;
      p, i := FindHelper(location);
      if p == NULL {
        return -1, FREE_SLOT;
      }
      return 0, slots[p];
    }

    /** mp1_rtc_tasklet: every entry is one tick older, and what switches is painted. */
    method RtcTasklet()
      requires Valid()
      modifies slots, screen, this`entries
      ensures Valid() && entries == AllOlder(old(entries))
      ensures screen[..] == PaintAll(old(screen[..]), old(entries))
      ensures View() == Do(old(View()), TickOp)
      ensures forall k :: 0 <= k < SLOTS ==> screen[2 * k + 1] == old(screen[2 * k + 1])
    {
      hide Paint, Without, Newest;
      ghost var m, sc, es := slots[..], screen[..], entries;
      var p := head;
      ghost var i := 0;
      while p != NULL
        invariant i <= |list| && p == if i < |list| then list[i] else NULL
        invariant Between(m, slots[..], list, es, i)
        invariant PaintAll(screen[..], es[i..]) == PaintAll(sc, es)
        decreases |list| - i
      {
        assert m[list[i]].next == if i + 1 < |list| then list[i + 1] else NULL;
        ghost var n := slots[..];
        assert n[p] == m[p] && Holds(m[p], es[i]);
        TickSlot(p, es[i]);
        assert es[i..][0] == es[i] && es[i..][1..] == es[i + 1..];
        OneTicked(m, n, slots[..], head, list, es, i);
        p := slots[p].next;
        i := i + 1;
      }
      AllAttributesStay(sc, screen[..], es);
      AllTicked(m, slots[..], head, list, es);
      entries := AllOlder(es);
    }

    /** One round of the tick's loop. */
    method TickSlot(p: int, ghost e: Entry)
      requires slots.Length == SLOTS && screen.Length == 2 * SLOTS && 0 <= p < SLOTS
      requires Holds(slots[p], e) && e.what.location < SLOTS
      modifies slots, screen
      ensures slots[..] == old(slots[..])[p := old(slots[p]).(timer := Ticked(old(slots[p]).timer))]
      ensures Holds(slots[p], Older(e))
      ensures screen[..] == Paint(old(screen[..]), e)
    {
      WaveIsPeriodic(e.what.onLength, e.what.offLength, e.age);
      WaveIsPeriodic(e.what.onLength, e.what.offLength, e.age + 1);
      var t := slots[p].timer;
      var c: uint16 := (t.countdown - 1) % WORD;
      t := t.(countdown := c);
      if !StillCounting(c) {
        if t.status % 2 == 1 {
          screen[2 * slots[p].location] := slots[p].offChar;
          t := t.(countdown := t.offLength, status := t.status - 1);
        } else {
          screen[2 * slots[p].location] := slots[p].onChar;
          t := t.(countdown := t.onLength, status := t.status + 1);
        }
      }
      slots[p] := slots[p].(timer := t);
    }
  }

  /** The first i entries of the list have been ticked; links and locations stay. */
  ghost predicate Between(m: seq<Slot>, n: seq<Slot>, list: seq<int>, es: seq<Entry>, i: int)
    requires |m| == SLOTS && |list| == |es| && forall k :: 0 <= k < |list| ==> 0 <= list[k] < SLOTS
  {
    && |n| == SLOTS
    && (forall q :: 0 <= q < SLOTS ==> n[q].next == m[q].next && n[q].location == m[q].location)
    && (forall k :: 0 <= i <= k < |list| ==> n[list[k]] == m[list[k]])
    && (forall k {:trigger Holds(n[list[k]], Older(es[k]))} :: 0 <= k < i && k < |list| ==>
        Holds(n[list[k]], Older(es[k])))
  }

  lemma OneTicked(m: seq<Slot>, n: seq<Slot>, n': seq<Slot>, head: int, list: seq<int>, es: seq<Entry>, i: nat)
    requires Linked(m, head, list) && |list| == |es| && i < |list| && Between(m, n, list, es, i)
    requires n' == n[list[i] := n[list[i]].(timer := Ticked(n[list[i]].timer))] && Holds(n'[list[i]], Older(es[i]))
    ensures Between(m, n', list, es, i + 1)
  {
    forall k | 0 <= k < i + 1
      ensures Holds(n'[list[k]], Older(es[k]))
    {
      if k < i {
        assert Holds(n[list[k]], Older(es[k]));
        assert list[k] != list[i];
      }
    }
  }

  lemma AllTicked(m: seq<Slot>, n: seq<Slot>, head: int, list: seq<int>, es: seq<Entry>)
    requires Linked(m, head, list) && Stores(m, list, es) && Between(m, n, list, es, |list|)
    ensures Linked(n, head, list) && Stores(n, list, AllOlder(es))
  {
    forall k | 0 <= k < |list|
      ensures n[list[k]].next == if k + 1 < |list| then list[k + 1] else NULL
    {
      assert m[list[k]].next == if k + 1 < |list| then list[k + 1] else NULL;
    }
    forall k | 0 <= k < |list|
      ensures Holds(n[list[k]], AllOlder(es)[k])
    {
      assert Holds(n[list[k]], Older(es[k]));
    }
  }

  // ---------- whole runs ----------

  datatype Op = AddOp(what: Request) | RemoveOp(location: uint16) | TickOp

  datatype State = State(entries: seq<Entry>, screen: seq<char8>)

  ghost predicate OnScreen(s: State) {
    |s.screen| == 2 * SLOTS && forall i :: 0 <= i < |s.entries| ==> s.entries[i].what.location < SLOTS
  }

  /** What the methods of List do to the entries and the screen. */
  function Do(s: State, op: Op): (r: State)
    requires OnScreen(s)
    ensures OnScreen(r)
  {
    match op
    case AddOp(what) =>
      if what.location >= SLOTS || |s.entries| == SLOTS then s
      else State([Entry(what, 0)] + s.entries, s.screen[2 * what.location := what.onChar])
    case RemoveOp(location) =>
      var i := Newest(s.entries, location);
      if i == |s.entries| then s else State(Without(s.entries, i), s.screen)
    case TickOp => State(AllOlder(s.entries), PaintAll(s.screen, s.entries))
  }

  /** The state after the operations ops, from an empty list. */
  function Run(screen: seq<char8>, ops: seq<Op>): (s: State)
    requires |screen| == 2 * SLOTS
    ensures OnScreen(s)
  {
    if ops == [] then State([], screen) else Do(Run(screen, ops[..|ops| - 1]), ops[|ops| - 1])
  }

  /** Every add of the run asks for a location other than 0 that no entry has at that moment. */
  ghost predicate OnePerLocation(screen: seq<char8>, ops: seq<Op>)
    requires |screen| == 2 * SLOTS
  {
    forall k :: 0 <= k < |ops| && ops[k].AddOp? ==>
      ops[k].what.location != 0 && forall e :: e in Run(screen, ops[..k]).entries ==>
          e.what.location != ops[k].what.location
  }

  /** In every run without two entries at one location, the screen shows each entry's on or off
      character according to its wave, at every step. */
  lemma {:induction false} ScreenShowsTheWaves(screen: seq<char8>, ops: seq<Op>)
    requires |screen| == 2 * SLOTS && OnePerLocation(screen, ops)
    ensures var s := Run(screen, ops); Apart(s.entries) && Shown(s.screen, s.entries)
    ensures var s := Run(screen, ops); forall i :: 0 <= i < |s.entries| ==>
      var e := s.entries[i];
      s.screen[2 * e.what.location] ==
        if On(e.what.onLength, e.what.offLength, e.age) then e.what.onChar else e.what.offChar
  {
    if ops != [] {
      var n := |ops| - 1;
      forall k | 0 <= k < n
        ensures ops[..n][..k] == ops[..k]
      {
      }
      ScreenShowsTheWaves(screen, ops[..n]);
      var before := Run(screen, ops[..n]);
      match ops[n]
      case AddOp(what) =>
        if what.location < SLOTS && |before.entries| != SLOTS {
          AddKeepsShown(before.screen, before.entries, what);
        }
      case RemoveOp(location) =>
        var i := Newest(before.entries, location);
        if i < |before.entries| {
          RemoveKeepsShown(before.screen, before.entries, i);
        }
      case TickOp => TickKeepsShown(before.screen, before.entries);
    }
  }
}
