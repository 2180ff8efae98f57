/** The countdown of one blinking character, in 16-bit arithmetic, and the wave it makes. */
module Waveform {
  import opened Arithmetic

  const WORD: int := 0x10000

  type uint16 = n: int | 0 <= n < WORD

  /** The timing fields of a blink structure. */
  datatype Timer = Timer(onLength: uint16, offLength: uint16, countdown: uint16, status: uint16)

  /** `cmpw $0, COUNTDOWN; jg`: the countdown as a signed word is positive. */
  predicate StillCounting(countdown: uint16) {
    0 < countdown < 0x8000
  }

  /** One tick: decrement, and at zero or below switch and start the other countdown. */
  function Ticked(t: Timer): Timer {
    var c: uint16 := (t.countdown - 1) % WORD;
    if StillCounting(c) then t.(countdown := c)
    else if t.status % 2 == 1 then t.(countdown := t.offLength, status := t.status - 1)
    else t.(countdown := t.onLength, status := t.status + 1)
  }

  /** How many ticks a length lasts: itself up to 32768; 0 and the lengths above last one tick. */
  function Lasts(length: uint16): (n: int)
    ensures n > 0
  {
    if length == 0 || length > 0x8000 then 1 else length
  }

  function Period(onLength: uint16, offLength: uint16): (p: int)
    ensures p > 1
  {
    Lasts(onLength) + Lasts(offLength)
  }

  /** The wave: on for Lasts(onLength) ticks, off for Lasts(offLength) ticks, and so on. */
  predicate On(onLength: uint16, offLength: uint16, n: nat) {
    n % Period(onLength, offLength) < Lasts(onLength)
  }

  /** The timer n ticks after mp1_ioctl_add, which starts it on with its on-length. */
  function After(onLength: uint16, offLength: uint16, n: nat): Timer {
    if n == 0 then Timer(onLength, offLength, onLength, 1) else Ticked(After(onLength, offLength, n - 1))
  }

  /** The timer at place r of its period. */
  ghost predicate AtPlace(t: Timer, onLength: uint16, offLength: uint16, r: int) {
    && t.onLength == onLength && t.offLength == offLength
    && (if r < Lasts(onLength) then t.status == 1 && t.countdown == onLength - r
        else t.status == 0 && t.countdown == offLength - (r - Lasts(onLength)))
  }

  lemma NextPlace(t: Timer, onLength: uint16, offLength: uint16, r: int)
    requires 0 <= r < Period(onLength, offLength) && AtPlace(t, onLength, offLength, r)
    ensures AtPlace(Ticked(t), onLength, offLength, if r + 1 == Period(onLength, offLength) then 0 else r + 1)
  {
  }

  lemma NextRemainder(n: nat, p: int)
    requires p > 1
    ensures 0 <= n % p < p
    ensures (n + 1) % p == if n % p + 1 == p then 0 else n % p + 1
  {
    var q, r := n / p, n % p;
    assert n == q * p + r;
    if r + 1 == p {
      assert n + 1 == (q + 1) * p;
      DividesAs(n + 1, q + 1, 0, p);
    } else {
      DividesAs(n + 1, q, r + 1, p);
    }
  }

  lemma {:induction false} PlaceAfter(onLength: uint16, offLength: uint16, n: nat)
    ensures AtPlace(After(onLength, offLength, n), onLength, offLength, n % Period(onLength, offLength))
  {
    var p := Period(onLength, offLength);
    if n == 0 {
      DividesAs(0, 0, 0, p);
    } else {
      PlaceAfter(onLength, offLength, n - 1);
      NextRemainder(n - 1, p);
      OneTick(onLength, offLength, n, (n - 1) % p);
    }
  }

  lemma OneTick(onLength: uint16, offLength: uint16, n: nat, r: int)
    requires n > 0 && 0 <= r < Period(onLength, offLength)
    requires AtPlace(After(onLength, offLength, n - 1), onLength, offLength, r)
    ensures AtPlace(After(onLength, offLength, n), onLength, offLength, if r + 1 ==
        Period(onLength, offLength) then 0 else r + 1)
  {
    NextPlace(After(onLength, offLength, n - 1), onLength, offLength, r);
  }

  /** An entry is on after n ticks exactly when n mod (a + b) < a, for lengths a and b of 1 to 32768
      ticks; 0 and longer words count as one tick. */
  lemma WaveIsPeriodic(onLength: uint16, offLength: uint16, n: nat)
    ensures After(onLength, offLength, n).status == if On(onLength, offLength, n) then 1 else 0
    ensures var a := if 1 <= onLength <= 0x8000 then onLength else 1;
      var b := if 1 <= offLength <= 0x8000 then offLength else 1;
      On(onLength, offLength, n) <==> n % (a + b) < a
  {
    PlaceAfter(onLength, offLength, n);
  }
}
