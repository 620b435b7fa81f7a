/** The blink list as a sequence of pool slots, and what each request does to it. */
module BlinkSpec {
  import opened BlinkPhase

  const POOL := 2000

  /** A pointer to a slot of the pool; a wiped slot holds a null one. */
  datatype Link = Null | At(slot: nat)

  datatype Slot = Slot(entry: Entry, next: Link)

  const WIPED := Slot(Entry(0, '\0', '\0', 0, 0, 0, 0), Null)

  /** The pool and the list head; `order` names the slots of the list from the head on. */
  datatype Blinks = Blinks(pool: seq<Slot>, head: Link, order: seq<nat>) {

    predicate Shaped() {
      |pool| == POOL && forall k :: 0 <= k < POOL ==> pool[k].entry.InWords()
    }

    function LinkAt(i: nat): Link {
      if i < |order| then At(order[i]) else Null
    }

    /** The slot at position `i` links to the one at the next position, the last one to nothing. */
    predicate LinkedAt(i: nat) {
      i < |order| ==> order[i] < |pool| && pool[order[i]].next == LinkAt(i + 1)
    }

    /** Following the links from the head visits exactly `order`. */
    predicate Linked() {
      && head == LinkAt(0)
      && (forall i :: 0 <= i < |order| ==> order[i] < |pool|)
      && (forall i :: 0 <= i < |order| ==> LinkedAt(i))
    }

    predicate Distinct() {
      forall i, j :: 0 <= i < j < |order| ==> order[i] != order[j]
    }

    predicate OnList(k: nat) {
      k in order
    }

    /** The list is acyclic, and a slot is on it exactly when its location is nonzero. */
    predicate Valid() {
      && Shaped() && Linked() && Distinct()
      && forall k: nat {:trigger OnList(k)} :: k < |pool| ==> (OnList(k) <==> pool[k].entry.location != 0)
    }

    /** The listed entries in list order. */
    function Entries(): (es: seq<Entry>)
      requires Shaped() && Linked()
      ensures |es| == |order|
      ensures forall i :: 0 <= i < |es| ==> es[i] == pool[order[i]].entry
    {
      seq(|order|, i requires 0 <= i < |order| => pool[order[i]].entry)
    }
  }

  /** The first free slot, or the length of the pool. */
  function FirstFree(pool: seq<Slot>, from: nat): (k: nat)
    requires from <= |pool|
    ensures from <= k <= |pool|
    ensures forall i :: from <= i < k ==> pool[i].entry.location != 0
    ensures k < |pool| ==> pool[k].entry.location == 0
    decreases |pool| - from
  {
    if from == |pool| || pool[from].entry.location == 0 then from else FirstFree(pool, from + 1)
  }

  /** The position of the first listed entry at a location, or the length of the list. */
  function FirstAt(es: seq<Entry>, location: int): (i: nat)
    ensures i <= |es|
    ensures forall j :: 0 <= j < i ==> es[j].location != location
    ensures i < |es| ==> es[i].location == location
  {
    if es == [] || es[0].location == location then 0 else 1 + FirstAt(es[1..], location)
  }

  predicate Addable(b: Blinks, e: Entry) {
    e.location < POOL && FirstFree(b.pool, 0) < |b.pool|
  }

  /** `mp1_ioctl_add`: a started copy in the first free slot becomes the head of the list. */
  function Add(b: Blinks, e: Entry): (r: Blinks)
    requires b.Shaped() && e.InWords()
    ensures r.Shaped()
  {
    if !Addable(b, e) then b
    else
      var k := FirstFree(b.pool, 0);
      Blinks(b.pool[k := Slot(Started(e), b.head)], At(k), [k] + b.order)
  }

  function Without<T>(s: seq<T>, i: nat): seq<T>
    requires i < |s|
  {
    s[..i] + s[i + 1..]
  }

  /** Unlinks the slot at position `i` of the list and wipes it. */
  function Unlink(b: Blinks, i: nat): (r: Blinks)
    requires b.Shaped() && b.Linked() && i < |b.order|
    ensures r.Shaped()
  {
    var k := b.order[i];
    var after := b.pool[k].next;
    if i == 0 then Blinks(b.pool[k := WIPED], after, b.order[1..])
    else
      var p := b.order[i - 1];
      Blinks(b.pool[p := b.pool[p].(next := after)][k := WIPED], b.head, Without(b.order, i))
  }

  /** `mp1_ioctl_remove`: the first entry at the location is unlinked and its slot wiped. */
  function Remove(b: Blinks, location: int): (r: Blinks)
    requires b.Shaped() && b.Linked()
    ensures r.Shaped()
  {
    var i := FirstAt(b.Entries(), location);
    if i == |b.order| then b else Unlink(b, i)
  }

  /** The target with the clock of the source. */
  function Synced(source: Entry, target: Entry): (r: Entry)
    requires source.InWords() && target.InWords()
    ensures r.InWords() && SameClock(source, r) && r.location == target.location
  {
    target.(onLength := source.onLength, offLength := source.offLength,
    countdown := source.countdown, status := source.status)
  }

  /** `mp1_ioctl_sync`: the first entry at `to` takes over the clock of the first entry at `from`. */
  function Sync(b: Blinks, from: int, to: int): (r: Blinks)
    requires b.Valid()
    ensures r.Shaped()
  {
    var i, j := FirstAt(b.Entries(), from), FirstAt(b.Entries(), to);
    if i == |b.order| || j == |b.order| then b
    else
      var source, target := b.pool[b.order[i]], b.pool[b.order[j]];
      b.(pool := b.pool[b.order[j] := target.(entry := Synced(source.entry, target.entry))])
  }

  function Ticking(slot: Slot): Slot
    requires slot.entry.InWords()
  {
    slot.(entry := TickEntry(slot.entry))
  }

  /** `mp1_rtc_tasklet`: every listed entry ticks once. */
  function Tick(b: Blinks): (r: Blinks)
    requires b.Shaped()
    ensures r.Shaped()
  {
    b.(pool := seq(POOL, k requires 0 <= k < POOL =>
      if k in b.order then Ticking(b.pool[k]) else b.pool[k]))
  }

  datatype Request = AddRequest(e: Entry) | RemoveRequest(location: int) | SyncRequest(from: int, to: int) | TickRequest

  predicate RequestOk(request: Request) {
    request.AddRequest? ==> request.e.InWords() && request.e.location != 0
  }

  function Do(b: Blinks, request: Request): (r: Blinks)
    requires b.Valid() && RequestOk(request)
    ensures r.Shaped()
  {
    match request
    case AddRequest(e) => Add(b, e)
    case RemoveRequest(location) => Remove(b, location)
    case SyncRequest(from, to) => Sync(b, from, to)
    case TickRequest => Tick(b)
  }

  /** An accepted add keeps the list sound exactly when its location is not 0, the mark of a free slot. */
  lemma AddKeepsExactly(b: Blinks, e: Entry)
    requires b.Valid() && e.InWords()
    ensures !Addable(b, e) ==> Add(b, e) == b
    ensures Addable(b, e) ==> (Add(b, e).Valid() <==> e.location != 0)
    ensures Addable(b, e) ==> Add(b, e).Linked() && Add(b, e).order == [FirstFree(b.pool, 0)] + b.order
    ensures Addable(b, e) ==>
              Add(b, e).Entries() ==
              [Entry(e.location, e.onChar, e.offChar, e.onLength, e.offLength, e.onLength, 1)] + b.Entries()
  {
    if Addable(b, e) {
      var k := FirstFree(b.pool, 0);
      var r := Add(b, e);
      assert !b.OnList(k);
      forall i | 0 <= i < |r.order|
        ensures r.LinkedAt(i)
      {
        if i > 0 {
          assert b.LinkedAt(i - 1) && r.order[i] == b.order[i - 1];
        }
      }
      assert r.pool[k].entry.location == e.location && r.order[0] == k;
      assert r.OnList(k);
      assert forall j: nat :: r.OnList(j) <==> j == k || b.OnList(j);
    }
  }

  /** A remove at the location of an entry just added takes exactly that entry back. */
  lemma RemoveUndoesAdd(b: Blinks, e: Entry)
    requires b.Valid() && e.InWords() && e.location != 0 && Addable(b, e)
    ensures Add(b, e).Valid() && Remove(Add(b, e), e.location).Valid()
    ensures Remove(Add(b, e), e.location).order == b.order
    ensures Remove(Add(b, e), e.location).Entries() == b.Entries()
  {
    AddKeepsExactly(b, e);
    RemoveKeeps(Add(b, e), e.location);
  }

  /** Two adds at location 0 leave a slot that is its own successor: the list has no end. */
  lemma ZeroLocationLoops(b: Blinks, e: Entry)
    requires b.Valid() && e.InWords() && e.location == 0 && Addable(b, e)
    ensures var r := Add(Add(b, e), e);
            exists k: nat :: k < POOL && r.head == At(k) && r.pool[k].next == At(k)
  {
    var k := FirstFree(b.pool, 0);
    var once := Add(b, e);
    FreeAgain(b.pool, once.pool, 0);
    assert FirstFree(once.pool, 0) == k;
    assert Add(once, e).pool[k].next == At(k);
  }

  lemma FreeAgain(pool: seq<Slot>, pool': seq<Slot>, from: nat)
    requires from <= |pool| == |pool'|
    requires forall i :: 0 <= i < |pool| ==> (pool[i].entry.location == 0 <==> pool'[i].entry.location == 0)
    ensures FirstFree(pool', from) == FirstFree(pool, from)
  {
  }

  /** An add is accepted exactly for a location on the screen while not every one of the 2000 slots is
      on the list. */
  lemma AddRefusedOnlyWhenFull(b: Blinks, e: Entry)
    requires b.Valid() && e.InWords()
    ensures Addable(b, e) <==> e.location < 2000 && |b.order| < 2000
  {
    var free := FirstFree(b.pool, 0);
    if free < POOL {
      assert !b.OnList(free);
      MissingOne(b.order, POOL, free);
    } else {
      forall k | k in UpTo(POOL)
        ensures k in b.order
      {
        assert b.OnList(k);
      }
      HasAll(b.order, POOL);
    }
  }

  lemma MissingOne(s: seq<nat>, n: nat, k: nat)
    requires forall i, j :: 0 <= i < j < |s| ==> s[i] != s[j]
    requires forall i :: 0 <= i < |s| ==> s[i] < n
    requires k < n && k !in s
    ensures |s| < n
  {
    var elems := set i | 0 <= i < |s| :: s[i];
    DistinctCount(s);
    assert elems <= UpTo(n) - {k};
    assert elems + (UpTo(n) - {k} - elems) == UpTo(n) - {k};
  }

  lemma HasAll(s: seq<nat>, n: nat)
    requires forall i, j :: 0 <= i < j < |s| ==> s[i] != s[j]
    requires forall k :: k in UpTo(n) ==> k in s
    ensures |s| >= n
  {
    var elems := set i | 0 <= i < |s| :: s[i];
    DistinctCount(s);
    assert UpTo(n) <= elems;
    assert UpTo(n) + (elems - UpTo(n)) == elems;
  }

  function UpTo(n: nat): (r: set<nat>)
    ensures |r| == n
    ensures forall k: nat :: k in r <==> k < n
  {
    if n == 0 then {} else UpTo(n - 1) + {n - 1}
  }

  lemma {:induction false} DistinctCount(s: seq<nat>)
    requires forall i, j :: 0 <= i < j < |s| ==> s[i] != s[j]
    ensures |set i | 0 <= i < |s| :: s[i]| == |s|
  {
    var elems := set i | 0 <= i < |s| :: s[i];
    if s == [] {
    } else {
      var n := |s| - 1;
      var t := s[..n];
      DistinctCount(t);
      var fewer := set i | 0 <= i < |t| :: t[i];
      assert forall i :: 0 <= i < n ==> t[i] == s[i];
      assert elems == fewer + {s[n]};
    }
  }

  /** Removing deletes exactly the first entry at the location, keeps the order of the rest and wipes the
      slot. */
  lemma RemoveKeeps(b: Blinks, location: int)
    requires b.Valid()
    ensures Remove(b, location).Valid()
    ensures var r, i := Remove(b, location), FirstAt(b.Entries(), location);
            if i == |b.order| then r == b
            else
              && r.order == b.order[..i] + b.order[i + 1..]
              && r.Entries() == b.Entries()[..i] + b.Entries()[i + 1..]
              && r.pool[b.order[i]] == Slot(Entry(0, '\0', '\0', 0, 0, 0, 0), Null)
  {
    var i := FirstAt(b.Entries(), location);
    if i < |b.order| {
      UnlinkKeeps(b, i);
      UnlinkLinks(b, i);
    }
  }

  lemma UnlinkLinks(b: Blinks, i: nat)
    requires b.Shaped() && b.Linked() && b.Distinct() && i < |b.order|
    ensures var r := Unlink(b, i);
            && r.order == Without(b.order, i) && r.Linked()
            && r.pool[b.order[i]] == WIPED
            && forall k :: 0 <= k < POOL && k != b.order[i] ==> r.pool[k].entry == b.pool[k].entry
  {
    var r := Unlink(b, i);
    assert b.LinkedAt(i);
    assert r.order == Without(b.order, i);
    forall j | 0 <= j < |r.order|
      ensures r.LinkedAt(j) && r.order[j] < |r.pool|
    {
      assert r.order[j] == b.order[if j < i then j else j + 1];
      assert b.LinkedAt(j) && b.LinkedAt(j + 1);
    }
  }

  lemma UnlinkKeeps(b: Blinks, i: nat)
    requires b.Valid() && i < |b.order|
    ensures Unlink(b, i).Valid()
    ensures Unlink(b, i).Entries() == Without(b.Entries(), i)
  {
    var r := Unlink(b, i);
    UnlinkLinks(b, i);
    WithoutMembers(b.order, i);
    forall k: nat | k < |r.pool|
      ensures r.OnList(k) <==> r.pool[k].entry.location != 0
    {
      assert r.OnList(k) <==> b.OnList(k) && k != b.order[i];
    }
    UnlinkEntries(b, i);
  }

  lemma UnlinkEntries(b: Blinks, i: nat)
    requires b.Shaped() && b.Linked() && b.Distinct() && i < |b.order|
    ensures Unlink(b, i).Linked() && Unlink(b, i).Entries() == Without(b.Entries(), i)
  {
    var r := Unlink(b, i);
    UnlinkLinks(b, i);
    forall j | 0 <= j < |r.order|
      ensures r.Entries()[j] == Without(b.Entries(), i)[j]
    {
      assert r.order[j] == b.order[if j < i then j else j + 1];
    }
  }

  lemma WithoutMembers(s: seq<nat>, i: nat)
    requires i < |s| && forall j, k :: 0 <= j < k < |s| ==> s[j] != s[k]
    ensures forall x :: x in Without(s, i) <==> x in s && x != s[i]
    ensures forall j, k :: 0 <= j < k < |Without(s, i)| ==> Without(s, i)[j] != Without(s, i)[k]
  {
    var t := Without(s, i);
    assert forall j :: 0 <= j < |t| ==> t[j] == s[if j < i then j else j + 1];
    forall x | x in s && x != s[i]
      ensures x in t
    {
      var j :| 0 <= j < |s| && s[j] == x;
      assert x == t[if j < i then j else j - 1];
    }
  }

  lemma SyncKeeps(b: Blinks, from: int, to: int)
    requires b.Valid()
    ensures Sync(b, from, to).Valid() && Sync(b, from, to).order == b.order
    ensures var es := b.Entries();
            var i, j := FirstAt(es, from), FirstAt(es, to);
            Sync(b, from, to).Entries() ==
            if i == |es| || j == |es| then es
            else
              es[j := Entry(es[j].location, es[j].onChar, es[j].offChar,
                            es[i].onLength, es[i].offLength, es[i].countdown, es[i].status)]
  {
    var r := Sync(b, from, to);
    forall n | 0 <= n < |r.order|
      ensures r.LinkedAt(n)
    {
      assert b.LinkedAt(n);
    }
    SameListValid(b, r);
  }

  /** Changing clocks only keeps the list sound. */
  lemma SameListValid(b: Blinks, r: Blinks)
    requires b.Valid() && r.Shaped() && r.Linked() && r.order == b.order
    requires forall k :: 0 <= k < POOL ==> r.pool[k].entry.location == b.pool[k].entry.location
    ensures r.Valid()
  {
    forall k: nat | k < POOL
      ensures r.OnList(k) <==> r.pool[k].entry.location != 0
    {
      assert r.OnList(k) <==> b.OnList(k);
    }
  }

  lemma TickKeeps(b: Blinks)
    requires b.Valid()
    ensures Tick(b).Valid() && Tick(b).order == b.order
    ensures forall i :: 0 <= i < |b.order| ==> Tick(b).Entries()[i] == TickEntry(b.Entries()[i])
    ensures forall k: nat :: k < POOL && k !in b.order ==> Tick(b).pool[k] == b.pool[k]
  {
    var r := Tick(b);
    forall n | 0 <= n < |r.order|
      ensures r.LinkedAt(n)
    {
      assert b.LinkedAt(n);
    }
    SameListValid(b, r);
  }

  /** The list and the pool agree after every request whose adds avoid location 0. */
  lemma DoKeeps(b: Blinks, request: Request)
    requires b.Valid() && RequestOk(request)
    ensures Do(b, request).Valid()
  {
    match request {
      case AddRequest(e) => AddKeepsExactly(b, e);
      case RemoveRequest(location) => RemoveKeeps(b, location);
      case SyncRequest(from, to) => SyncKeeps(b, from, to);
      case TickRequest => TickKeeps(b);
    }
  }

  predicate RunOk(run: seq<Request>) {
    forall i :: 0 <= i < |run| ==> RequestOk(run[i])
  }

  function Run(b: Blinks, run: seq<Request>): (r: Blinks)
    requires b.Valid() && RunOk(run)
    ensures r.Valid()
    decreases |run|
  {
    if run == [] then b
    else
      var before := Run(b, run[..|run| - 1]);
      DoKeeps(before, run[|run| - 1]);
      Do(before, run[|run| - 1])
  }

  /** The pool and list as the program's first memset leaves them. */
  function Empty(): (b: Blinks)
    ensures b.Valid()
  {
    Blinks(seq(POOL, _ => WIPED), Null, [])
  }

  /** Two slots on the list with the same clock. */
  predicate InStep(b: Blinks, k: nat, l: nat) {
    && b.Valid() && k < POOL && l < POOL
    && k in b.order && l in b.order
    && SameClock(b.pool[k].entry, b.pool[l].entry)
  }

  /** The request neither removes one of the two entries nor makes it the target of a sync. */
  predicate Leaves(b: Blinks, request: Request, k: nat, l: nat)
    requires b.Valid()
  {
    match request
    case RemoveRequest(location) => Spared(b, location, k, l)
    case SyncRequest(_, to) => Spared(b, to, k, l)
    case _ => true
  }

  predicate Spared(b: Blinks, location: int, k: nat, l: nat)
    requires b.Valid()
  {
    var i := FirstAt(b.Entries(), location);
    i < |b.order| ==> b.order[i] != k && b.order[i] != l
  }

  predicate AllLeave(b: Blinks, run: seq<Request>, k: nat, l: nat)
    requires b.Valid() && RunOk(run)
    decreases |run|
  {
    run == [] ||
    (AllLeave(b, run[..|run| - 1], k, l) && Leaves(Run(b, run[..|run| - 1]), run[|run| - 1], k, l))
  }

  /** A successful sync puts its two entries in step. */
  lemma SyncPutsInStep(b: Blinks, from: int, to: int)
    requires b.Valid()
    requires FirstAt(b.Entries(), from) < |b.order| && FirstAt(b.Entries(), to) < |b.order|
    ensures InStep(Sync(b, from, to), b.order[FirstAt(b.Entries(), from)], b.order[FirstAt(b.Entries(), to)])
  {
    SyncKeeps(b, from, to);
  }

  /** Entries in step stay in step until one of them is removed or synced again. */
  lemma {:induction false} StayInStep(b: Blinks, run: seq<Request>, k: nat, l: nat)
    requires InStep(b, k, l) && RunOk(run) && AllLeave(b, run, k, l)
    ensures InStep(Run(b, run), k, l)
    decreases |run|
  {
    if run == [] {
    } else {
      var before := run[..|run| - 1];
      StayInStep(b, before, k, l);
      StepStaysInStep(Run(b, before), run[|run| - 1], k, l);
    }
  }

  /** A step that leaves an entry alone changes it by a tick at most. */
  lemma StepEntry(b: Blinks, request: Request, k: nat)
    requires b.Valid() && k < POOL && k in b.order
    requires RequestOk(request) && Leaves(b, request, k, k)
    ensures Do(b, request).pool[k].entry ==
            if request.TickRequest? then TickEntry(b.pool[k].entry) else b.pool[k].entry
  {
    assert b.OnList(k);
  }

  lemma StaysListed(b: Blinks, request: Request, k: nat)
    requires b.Valid() && k < POOL && k in b.order
    requires RequestOk(request) && Leaves(b, request, k, k)
    ensures k in Do(b, request).order
  {
    DoKeeps(b, request);
    StepEntry(b, request, k);
    assert b.OnList(k);
    assert Do(b, request).OnList(k);
  }

  lemma StepStaysInStep(b: Blinks, request: Request, k: nat, l: nat)
    requires InStep(b, k, l) && RequestOk(request) && Leaves(b, request, k, l)
    ensures InStep(Do(b, request), k, l)
  {
    DoKeeps(b, request);
    StaysListed(b, request, k);
    StaysListed(b, request, l);
    StepEntry(b, request, k);
    StepEntry(b, request, l);
  }

  function TickCount(run: seq<Request>): nat
    decreases |run|
  {
    if run == [] then 0
    else TickCount(run[..|run| - 1]) + if run[|run| - 1].TickRequest? then 1 else 0
  }

  /** Over any run an entry that is neither removed nor synced changes by the ticks alone. */
  lemma {:induction false} OnlyTicksCount(b: Blinks, run: seq<Request>, k: nat)
    requires b.Valid() && k < POOL && k in b.order
    requires RunOk(run) && AllLeave(b, run, k, k)
    ensures k in Run(b, run).order
    ensures Run(b, run).pool[k].entry == Ticked(b.pool[k].entry, TickCount(run))
    decreases |run|
  {
    if run == [] {
    } else {
      var before := run[..|run| - 1];
      OnlyTicksCount(b, before, k);
      assert Run(b, run) == Do(Run(b, before), run[|run| - 1]);
      StepTicks(Run(b, before), run[|run| - 1], k, b.pool[k].entry, TickCount(before));
    }
  }

  lemma StepTicks(b: Blinks, request: Request, k: nat, e: Entry, n: nat)
    requires b.Valid() && k < POOL && k in b.order && e.InWords() && b.pool[k].entry == Ticked(e, n)
    requires RequestOk(request) && Leaves(b, request, k, k)
    ensures k in Do(b, request).order
    ensures Do(b, request).pool[k].entry == Ticked(e, n + if request.TickRequest? then 1 else 0)
  {
    StaysListed(b, request, k);
    StepEntry(b, request, k);
  }

  /** The phase of an added entry in any later run: it is on exactly when the ticks since the add,
      modulo its period, fall in its on part. A length of 0 or above 32768 lasts one tick. */
  lemma {:induction false} AddedPhase(b: Blinks, e: Entry, run: seq<Request>)
    requires b.Valid() && e.InWords() && e.location != 0 && Addable(b, e)
    requires Add(b, e).Valid() && RunOk(run)
    requires AllLeave(Add(b, e), run, FirstFree(b.pool, 0), FirstFree(b.pool, 0))
    ensures var on := if 1 <= e.onLength <= 32768 then e.onLength else 1;
            var off := if 1 <= e.offLength <= 32768 then e.offLength else 1;
            var now := Run(Add(b, e), run).pool[FirstFree(b.pool, 0)].entry;
            now.status == if TickCount(run) % (on + off) < on then 1 else 0
  {
    var k := FirstFree(b.pool, 0);
    assert Add(b, e).order[0] == k;
    OnlyTicksCount(Add(b, e), run, k);
    PhaseInClosedForm(e, TickCount(run));
  }
}
