/** One blinking character: its 16-bit countdown and the phase it is in after any number of ticks. */
module BlinkPhase {

  /** A blink structure without its link; all numbers are unsigned 16-bit words. */
  datatype Entry = Entry(location: int, onChar: char, offChar: char,
                         onLength: int, offLength: int, countdown: int, status: int)
  {
    predicate InWords() {
      && 0 <= location < WORD && 0 <= onLength < WORD && 0 <= offLength < WORD
      && 0 <= countdown < WORD && 0 <= status < WORD
    }

    predicate On() {
      status % 2 == 1
    }
  }

  const WORD := 0x1_0000
  const SIGN := 0x8000

  /** The comparison after `decw` is signed. */
  predicate Positive(word: int) {
    0 < word < SIGN
  }

  function Decremented(word: int): int {
    if word == 0 then WORD - 1 else word - 1
  }

  /** One entry's share of a tick. */
  function TickEntry(e: Entry): (r: Entry)
    requires e.InWords()
    ensures r.InWords()
  {
    var left := Decremented(e.countdown);
    if Positive(left) then e.(countdown := left)
    else if e.On() then e.(countdown := e.offLength, status := e.status - 1)
    else e.(countdown := e.onLength, status := e.status + 1)
  }

  /** What adding makes of the caller's structure: on, with its on-length to go. */
  function Started(e: Entry): (r: Entry)
    requires e.InWords()
    ensures r.InWords()
  {
    e.(status := 1, countdown := e.onLength)
  }

  function Ticked(e: Entry, n: nat): (r: Entry)
    requires e.InWords()
    ensures r.InWords()
  {
    if n == 0 then e else TickEntry(Ticked(e, n - 1))
  }

  /** How many ticks a phase of a given length really lasts: lengths the signed comparison sees as
      used up after one tick last one tick. */
  function Effective(length: int): (r: int)
    requires 0 <= length < WORD
    ensures r > 0
  {
    if 1 <= length <= SIGN then length else 1
  }

  /** Countdown after `m` ticks of a phase. */
  function Remaining(length: int, m: int): int {
    if length == 0 && m > 0 then WORD - m else length - m
  }

  lemma ModStep(n: nat, p: int)
    requires p > 0
    ensures (n + 1) % p == if n % p + 1 == p then 0 else n % p + 1
  {
    var q, r := n / p, n % p;
    assert n + 1 == q * p + (r + 1);
    if r + 1 == p {
      assert n + 1 == (q + 1) * p + 0;
      DivModUnique(n + 1, p, q + 1, 0);
    } else {
      DivModUnique(n + 1, p, q, r + 1);
    }
  }

  lemma DivModUnique(a: int, p: int, q: int, r: int)
    requires p > 0 && 0 <= r < p && a == q * p + r
    ensures a % p == r
  {
    var d := a / p - q;
    assert a == (a / p) * p + a % p;
    assert r - a % p == (a / p) * p - q * p == d * p;
    OneMultiple(d, p);
  }

  lemma OneMultiple(d: int, p: int)
    requires p > 0
    ensures -p < d * p < p ==> d == 0
  {
    if d >= 1 {
      assert d * p >= p;
    } else if d <= -1 {
      assert d * p <= -p;
    }
  }

  /** The blink phase in closed form: an entry nobody has synced is on after `n` ticks exactly when
      `n` modulo the period falls in the on part. */
  lemma {:induction false} PhaseInClosedForm(e: Entry, n: nat)
    requires e.InWords()
    ensures var on, off := Effective(e.onLength), Effective(e.offLength);
            var m := n % (on + off);
            var r := Ticked(Started(e), n);
            && (r.On() <==> m < on)
            && r == Started(e).(
                    status := if m < on then 1 else 0,
                    countdown := if m < on then Remaining(e.onLength, m) else Remaining(e.offLength, m - on))
  {
    var on, off := Effective(e.onLength), Effective(e.offLength);
    if n == 0 {
      assert 0 % (on + off) == 0;
    } else {
      PhaseInClosedForm(e, n - 1);
      ModStep(n - 1, on + off);
    }
  }

  /** The parts of an entry that decide its future. */
  predicate SameClock(a: Entry, b: Entry) {
    && a.onLength == b.onLength && a.offLength == b.offLength
    && a.countdown == b.countdown && a.status == b.status
  }

  /** Entries with the same clock keep it through every tick. */
  lemma {:induction false} ClocksStayTogether(a: Entry, b: Entry, n: nat)
    requires a.InWords() && b.InWords() && SameClock(a, b)
    ensures SameClock(Ticked(a, n), Ticked(b, n))
  {
    if n == 0 {
    } else {
      ClocksStayTogether(a, b, n - 1);
    }
  }
}
