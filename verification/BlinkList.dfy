/** The blink list as the program keeps it: an intrusive linked list in a fixed pool of slots. */
module BlinkList {
  import opened BlinkPhase
  import opened BlinkSpec
  import opened Machine

  class BlinkList {
    const pool: array<Slot>
    var head: Link
    ghost var order: seq<nat>

    ghost function State(): Blinks
      reads this, pool
    {
      Blinks(pool[..], head, order)
    }

    ghost predicate Valid()
      reads this, pool
    {
      State().Valid()
    }

    /** The pool as the first `memset` leaves it. */
    constructor ()
      ensures Valid() && State() == Empty()
    {
      pool := new Slot[POOL](_ => WIPED);
      head, order := Null, [];
      new;
      assert pool[..] == Empty().pool;
    }

    /** `mp1_malloc`: the first slot whose location is 0. */
    method Malloc() returns (slot: Link)
      requires pool.Length == POOL
      ensures var k := FirstFree(pool[..], 0); slot == if k < POOL then At(k) else Null
    {
      var i := 0;
      while i < POOL
        invariant 0 <= i <= POOL
        invariant FirstFree(pool[..], 0) == FirstFree(pool[..], i)
      {
        if pool[i].entry.location == 0 {
          return At(i);
        }
        i := i + 1;
      }
      return Null;
    }

    /** `mp1_ioctl_add`. */
    method Add(e: Entry) returns (status: int)
      requires Valid() && e.InWords()
      modifies this, pool
      ensures State() == BlinkSpec.Add(old(State()), e)
      ensures status == if Addable(old(State()), e) then 0 else -1
    {
      if e.location >= POOL {
        return -1;
      }
      var slot := Malloc();
      if slot == Null {
        return -1;
      }
      pool[slot.slot] := Slot(Started(e), head);
      head := slot;
      order := [slot.slot] + order;
      return 0;
    }

    /** `mp1_find_helper`: the first slot of the list at a location, which is the low word of `arg`. */
    method Find(arg: nat) returns (p: Link, ghost at: nat)
      requires Valid()
      ensures at == FirstAt(State().Entries(), arg % 0x1_0000)
      ensures p == State().LinkAt(FirstAt(State().Entries(), arg % 0x1_0000))
    {
      var location := arg % WORD;
      ghost var es := State().Entries();
      p, at := head, 0;
      assert es[0..] == es;
      while p != Null
        invariant at <= |order| && p == State().LinkAt(at)
        invariant FirstAt(es, location) == at + FirstAt(es[at..], location)
        decreases |order| - at
      {
        if pool[p.slot].entry.location == location {
          return;
        }
        assert State().LinkedAt(at) && es[at..][1..] == es[at + 1..];
        p := pool[p.slot].next;
        at := at + 1;
      }
    }

    /** `mp1_ioctl_remove`: finds the entry, then the link that points at it. */
    method Remove(arg: nat) returns (status: int)
      requires Valid()
      modifies this, pool
      ensures State() == BlinkSpec.Remove(old(State()), arg % 0x1_0000)
      ensures status == if FirstAt(old(State()).Entries(), arg % 0x1_0000) < |old(order)| then 0 else -1
    {
      var p, at := Find(arg);
      if p == Null {
        return -1;
      }
      var after := pool[p.slot].next;
      assert State().LinkedAt(at);
      if head == p {
        assert at == 0;
        head := after;
        order := order[1..];
      } else {
        var prev := FindPrev(p, at);
        pool[prev] := pool[prev].(next := after);
        order := Without(order, at);
      }
      pool[p.slot] := WIPED;
      return 0;
    }

    /** The slot whose link points at `p`, which is not the head. */
    method FindPrev(p: Link, ghost at: nat) returns (prev: nat)
      requires Valid() && 0 < at < |order| && p == At(order[at])
      ensures prev == order[at - 1]
    {
      ghost var i := 0;
      prev := head.slot;
      while pool[prev].next != p
        invariant 0 <= i < at && prev == order[i]
        decreases at - i
      {
        assert State().LinkedAt(i);
        prev := pool[prev].next.slot;
        i := i + 1;
      }
      assert State().LinkedAt(i);
    }

    /** `mp1_ioctl_sync`: the high word of `arg` names the source and the low word the target. */
    method Sync(arg: nat) returns (status: int)
      requires Valid() && arg < UINT
      modifies pool
      ensures State() == BlinkSpec.Sync(old(State()), arg / 0x1_0000, arg % 0x1_0000)
      ensures status ==
              if FirstAt(old(State()).Entries(), arg / 0x1_0000) < |order| &&
                 FirstAt(old(State()).Entries(), arg % 0x1_0000) < |order|
              then 0 else -1
    {
      assert (arg / WORD) % WORD == arg / WORD;
      var p, i := Find(arg / WORD);
      if p == Null {
        return -1;
      }
      var q, j := Find(arg % WORD);
      if q == Null {
        return -1;
      }
      var source, target := pool[p.slot].entry, pool[q.slot].entry;
      pool[q.slot] := pool[q.slot].(entry := target.(onLength := source.onLength));
      pool[q.slot] := pool[q.slot].(entry := pool[q.slot].entry.(offLength := source.offLength));
      pool[q.slot] := pool[q.slot].(entry := pool[q.slot].entry.(countdown := source.countdown));
      pool[q.slot] := pool[q.slot].(entry := pool[q.slot].entry.(status := source.status));
      assert pool[..] == old(pool[..])[q.slot := pool[q.slot]];
      return 0;
    }

    /** `mp1_rtc_tasklet`: walks the list once. */
    method Tasklet()
      requires Valid()
      modifies pool
      ensures State() == Tick(old(State()))
    {
      var p := head;
      ghost var done := 0;
      while p != Null
        invariant done <= |order| && p == old(State()).LinkAt(done)
        invariant forall k :: 0 <= k < POOL ==>
                                pool[k] == if k in order[..done] then Ticking(old(pool[k])) else old(pool[k])
        decreases |order| - done
      {
        assert old(State()).LinkedAt(done);
        var e := pool[p.slot].entry;
        var left := Decremented(e.countdown);
        if Positive(left) {
          e := e.(countdown := left);
        } else if e.On() {
          e := e.(countdown := e.offLength, status := e.status - 1);
        } else {
          e := e.(countdown := e.onLength, status := e.status + 1);
        }
        pool[p.slot] := pool[p.slot].(entry := e);
        assert order[..done + 1] == order[..done] + [order[done]];
        p := pool[p.slot].next;
        done := done + 1;
      }
      assert order[..done] == order;
      assert pool[..] == Tick(old(State())).pool;
    }
  }
}
