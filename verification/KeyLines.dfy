/** The lines being typed on the three terminals, with backspaces: one line is in the key buffer, the
    others are saved. */
module KeyLines {
  import opened Screen
  import opened LineEditor
  import opened Terminals

  datatype Board = Board(lines: seq<seq<char>>, displayed: int) {
    predicate Valid() {
      |lines| == TERMINALS && 0 <= displayed < TERMINALS
    }
  }

  /** What can happen to the lines: a key, a read of the displayed line, a change of the displayed
      terminal, or nothing. */
  datatype Event = Key(c: char) | Read | Show(n: int) | Nothing

  predicate EventOk(event: Event) {
    event.Show? ==> 0 <= event.n < TERMINALS
  }

  function After(b: Board, event: Event): (r: Board)
    requires b.Valid() && EventOk(event)
    ensures r.Valid()
  {
    match event
    case Key(c) => b.(lines := b.lines[b.displayed := Edited(b.lines[b.displayed], c)])
    case Read => b.(lines := b.lines[b.displayed := []])
    case Show(n) => b.(displayed := n)
    case Nothing => b
  }

  lemma AfterKeyIs(b: Board, r: Board, c: char)
    requires b.Valid() && r.Valid() && r.displayed == b.displayed
    requires forall t :: 0 <= t < TERMINALS ==>
                           r.lines[t] == if t == b.displayed then Edited(b.lines[t], c) else b.lines[t]
    ensures r == After(b, Key(c))
  {
    assert r.lines == After(b, Key(c)).lines;
  }

  predicate EventsOk(events: seq<Event>) {
    forall i :: 0 <= i < |events| ==> EventOk(events[i])
  }

  function AfterAll(b: Board, events: seq<Event>): (r: Board)
    requires b.Valid() && EventsOk(events)
    ensures r.Valid()
    decreases |events|
  {
    if events == [] then b
    else After(AfterAll(b, events[..|events| - 1]), events[|events| - 1])
  }

  /** What a terminal's line is made of: what it began with and the keys typed since. */
  datatype Typed = Typed(start: seq<char>, keys: seq<char>)

  /** The keys typed, backspaces included, while terminal `t` was displayed since its line was last read. */
  function KeysTyped(b: Board, events: seq<Event>, t: int): Typed
    requires b.Valid() && EventsOk(events) && 0 <= t < TERMINALS
    decreases |events|
  {
    if events == [] then Typed(b.lines[t], [])
    else
      var before := events[..|events| - 1];
      var typed := KeysTyped(b, before, t);
      if t != AfterAll(b, before).displayed then typed
      else
        match events[|events| - 1]
        case Key(c) => typed.(keys := typed.keys + [c])
        case Read => Typed([], [])
        case _ => typed
  }

  function EditedAll(line: seq<char>, keys: seq<char>): seq<char>
    decreases |keys|
  {
    if keys == [] then line
    else Edited(EditedAll(line, keys[..|keys| - 1]), keys[|keys| - 1])
  }

  /** However keys, backspaces, reads and changes of the displayed terminal interleave, each terminal's
      line is what its own keys make of it. */
  lemma {:induction false} LinesAreExact(b: Board, events: seq<Event>, t: int)
    requires b.Valid() && EventsOk(events) && 0 <= t < TERMINALS
    ensures var typed := KeysTyped(b, events, t);
            AfterAll(b, events).lines[t] == EditedAll(typed.start, typed.keys)
    decreases |events|
  {
    if events == [] {
    } else {
      var before := events[..|events| - 1];
      LinesAreExact(b, before, t);
      if events[|events| - 1].Key? {
        Snoc(KeysTyped(b, before, t).keys, events[|events| - 1].c);
      }
    }
  }

  /** A line that begins empty is what its own keys leave when every backspace cancels the key before
      it on that terminal and is ignored if there is none. */
  lemma {:induction false} LinesAreSurvivors(b: Board, events: seq<Event>, t: int)
    requires b.Valid() && EventsOk(events) && 0 <= t < TERMINALS && b.lines[t] == []
    ensures AfterAll(b, events).lines[t] == Survivors(KeysTyped(b, events, t).keys)
  {
    LinesAreExact(b, events, t);
    StartsEmpty(b, events, t);
    EditedFromEmpty(KeysTyped(b, events, t).keys);
  }

  lemma {:induction false} StartsEmpty(b: Board, events: seq<Event>, t: int)
    requires b.Valid() && EventsOk(events) && 0 <= t < TERMINALS && b.lines[t] == []
    ensures KeysTyped(b, events, t).start == []
    decreases |events|
  {
    if events == [] {
    } else {
      StartsEmpty(b, events[..|events| - 1], t);
    }
  }

  lemma {:induction false} EditedFromEmpty(keys: seq<char>)
    ensures EditedAll([], keys) == Survivors(keys)
    decreases |keys|
  {
    if keys == [] {
    } else {
      EditedFromEmpty(keys[..|keys| - 1]);
    }
  }

  /** Without backspaces the keys simply follow the line. */
  lemma {:induction false} EditedForward(line: seq<char>, keys: seq<char>)
    requires BACKSPACE !in keys
    ensures EditedAll(line, keys) == line + keys
    decreases |keys|
  {
    if keys == [] {
    } else {
      EditedForward(line, keys[..|keys| - 1]);
    }
  }
}
