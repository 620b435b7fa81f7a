/** The ring of terminals the timer goes round. */
module Terminals {
  const TERMINALS := 3

  function Next(t: int): int {
    (t + 1) % TERMINALS
  }

  /** From the last terminal the ring leads back to the first. */
  lemma NextInOrder(t: int)
    requires 0 <= t < 3
    ensures Next(t) == if t == 2 then 0 else t + 1
  {
  }

  /** The terminal `n` turns on from `start`, going 0, 1, 2 and back to 0. */
  function Turned(start: int, n: nat): (t: int)
    requires 0 <= start < 3
    ensures 0 <= t < 3
  {
    if n == 0 then start
    else
      var t := Turned(start, n - 1);
      if t == 2 then 0 else t + 1
  }

  lemma {:induction false} TurnedInClosedForm(start: int, n: nat)
    requires 0 <= start < 3
    ensures Turned(start, n) == (start + n) % 3
  {
    if n > 0 {
      TurnedInClosedForm(start, n - 1);
    }
  }

  /** At most two turns lead from any terminal to any other. */
  function TurnsTo(start: int, t: int): (n: nat)
    requires 0 <= start < 3 && 0 <= t < 3
    ensures n <= 2 && Turned(start, n) == t
  {
    assert Turned(start, 2) == if Turned(start, 1) == 2 then 0 else Turned(start, 1) + 1;
    if start == t then 0 else if Turned(start, 1) == t then 1 else 2
  }
}
