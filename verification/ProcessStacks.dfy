/** What the process table stands for: one stack of processes per terminal. Every `execute` pushes,
    every `halt` pops, every tick moves to the next terminal. */
module ProcessStacks {
  import opened ProcessSpec
  import opened Terminals

  /** A process on a stack: its slot and the registers it is to be resumed with. The registers of the
      process that is running mean nothing. */
  datatype Entry = Entry(slot: int, saved: Context)

  type Stack = seq<Entry>

  const NOWHERE := Context(0, 0)

  predicate IsTop(stacks: seq<Stack>, t: nat, i: nat) {
    t < |stacks| && i + 1 == |stacks[t]|
  }

  /** The table entry of position `i` of stack `t`; the top of stack `run` is running. */
  predicate EntryOk(s: Sys, stacks: seq<Stack>, run: int, t: nat, i: nat) {
    t < |stacks| && i < |stacks[t]| && |s.pcbs| == MAX_PCB ==>
      var e := stacks[t][i];
      && 0 <= e.slot < MAX_PCB
      && var p := s.pcbs[e.slot];
      && p.active && p.pid == e.slot && p.tid == t && p.esp0 == Esp0(e.slot)
      && p.parentId == (if i == 0 then NONE else stacks[t][i - 1].slot)
      && (t != run || !IsTop(stacks, t, i) ==> p.saved == e.saved)
      && (t != run && IsTop(stacks, t, i) ==> p.tssEsp0 == p.esp0)
  }

  predicate Holds(stacks: seq<Stack>, t: nat, i: nat, k: int) {
    t < |stacks| && i < |stacks[t]| && stacks[t][i].slot == k
  }

  ghost predicate OnStack(stacks: seq<Stack>, k: int) {
    exists t: nat, i: nat :: Holds(stacks, t, i, k)
  }

  predicate Apart(stacks: seq<Stack>, t: nat, i: nat, u: nat, j: nat) {
    t < |stacks| && i < |stacks[t]| && u < |stacks| && j < |stacks[u]| && stacks[t][i].slot == stacks[u][j].slot
    ==> t == u && i == j
  }

  /** No slot stands on the stacks twice. */
  ghost predicate Distinct(stacks: seq<Stack>) {
    forall t: nat, i: nat, u: nat, j: nat :: Apart(stacks, t, i, u, j)
  }

  /** The count and the saved pointer a terminal keeps. */
  predicate TerminalOk(s: Sys, stacks: seq<Stack>, run: int, t: nat) {
    t < |stacks| && t < |s.terminals| ==>
      && s.terminals[t].countPcb == |stacks[t]|
      && (t != run ==> s.terminals[t].pcbPtr == if stacks[t] == [] then NONE else stacks[t][|stacks[t]| - 1].slot)
  }

  ghost predicate EntriesOk(s: Sys, stacks: seq<Stack>, run: int) {
    forall t: nat, i: nat :: EntryOk(s, stacks, run, t, i)
  }

  ghost predicate Covered(s: Sys, stacks: seq<Stack>)
    requires s.Shaped()
  {
    forall k :: 0 <= k < MAX_PCB && s.pcbs[k].active ==> OnStack(stacks, k)
  }

  ghost predicate TerminalsOk(s: Sys, stacks: seq<Stack>, run: int) {
    forall t: nat :: TerminalOk(s, stacks, run, t)
  }

  /** The process table is made of the three stacks. */
  ghost predicate Table(s: Sys, stacks: seq<Stack>, run: int) {
    && s.Shaped() && |stacks| == TERMINALS
    && EntriesOk(s, stacks, run) && Distinct(stacks) && Covered(s, stacks) && TerminalsOk(s, stacks, run)
  }

  /** The running process is the top of the scheduled terminal's stack, mapped and with its own kernel stack. */
  predicate Running(s: Sys, stacks: seq<Stack>) {
    && s.Shaped() && |stacks| == TERMINALS && stacks[s.scheduled] != []
    && s.curr == stacks[s.scheduled][|stacks[s.scheduled]| - 1].slot
    && 0 <= s.curr < MAX_PCB && s.pid != NONE
    && s.pageDir32 == PageEntry(s.curr) && s.tssEsp0 == s.pcbs[s.curr].esp0
  }

  predicate Unbooted(s: Sys, stacks: seq<Stack>) {
    s.Shaped() && stacks == [[], [], []] && s.curr == NONE && s.pid == NONE
  }

  ghost predicate Sound(s: Sys, stacks: seq<Stack>) {
    Table(s, stacks, s.scheduled) && (Running(s, stacks) || Unbooted(s, stacks))
  }

  function Push(stacks: seq<Stack>, t: nat, slot: int, ctx: Context): (r: seq<Stack>)
    requires t < |stacks|
    ensures |r| == |stacks|
  {
    stacks[t := Saved(stacks[t], ctx) + [Entry(slot, NOWHERE)]]
  }

  /** The stack with the registers of its top process saved. */
  function Saved(stack: Stack, ctx: Context): (r: Stack)
    ensures |r| == |stack|
  {
    if stack == [] then [] else stack[|stack| - 1 := stack[|stack| - 1].(saved := ctx)]
  }

  function Pop(stacks: seq<Stack>, t: nat): (r: seq<Stack>)
    requires t < |stacks| && stacks[t] != []
    ensures |r| == |stacks|
  {
    stacks[t := stacks[t][..|stacks[t]| - 1]]
  }

  lemma PopHolds(stacks: seq<Stack>, t0: nat, k: int)
    requires t0 < |stacks| && stacks[t0] != [] && Distinct(stacks)
    ensures OnStack(Pop(stacks, t0), k) <==> OnStack(stacks, k) && k != stacks[t0][|stacks[t0]| - 1].slot
  {
    var popped, top := Pop(stacks, t0), |stacks[t0]| - 1;
    if OnStack(stacks, k) && k != stacks[t0][top].slot {
      var t: nat, i: nat :| Holds(stacks, t, i, k);
      assert Holds(popped, t, i, k);
    }
    if OnStack(popped, k) {
      var t: nat, i: nat :| Holds(popped, t, i, k);
      assert Holds(stacks, t, i, k);
      assert Apart(stacks, t, i, t0, top);
    }
  }

  lemma PopDistinct(stacks: seq<Stack>, t0: nat)
    requires t0 < |stacks| && stacks[t0] != [] && Distinct(stacks)
    ensures Distinct(Pop(stacks, t0))
  {
    forall t: nat, i: nat, u: nat, j: nat
      ensures Apart(Pop(stacks, t0), t, i, u, j)
    {
      assert Apart(stacks, t, i, u, j);
    }
  }

  /** Giving up the running process's slot pops its stack. */
  lemma LeavePops(s: Sys, stacks: seq<Stack>)
    requires Table(s, stacks, s.scheduled) && Running(s, stacks)
    ensures Table(Leave(s), Pop(stacks, s.scheduled), s.scheduled)
  {
    var t0 := s.scheduled;
    var popped := Pop(stacks, t0);
    var r := Leave(s);
    PopDistinct(stacks, t0);
    forall t: nat, i: nat
      ensures EntryOk(r, popped, t0, t, i)
    {
      LeaveEntry(s, stacks, t, i);
    }
    forall k | 0 <= k < MAX_PCB && r.pcbs[k].active
      ensures OnStack(popped, k)
    {
      PopHolds(stacks, t0, k);
    }
    forall t: nat
      ensures TerminalOk(r, popped, t0, t)
    {
      assert TerminalOk(s, stacks, t0, t);
    }
  }

  lemma LeaveEntry(s: Sys, stacks: seq<Stack>, t: nat, i: nat)
    requires s.Shaped() && |stacks| == TERMINALS && EntriesOk(s, stacks, s.scheduled) && Distinct(stacks)
    requires Running(s, stacks)
    ensures EntryOk(Leave(s), Pop(stacks, s.scheduled), s.scheduled, t, i)
  {
    assert EntryOk(s, stacks, s.scheduled, t, i);
    assert Apart(stacks, t, i, s.scheduled, |stacks[s.scheduled]| - 1);
  }

  /** Going back to the process below. */
  lemma ReturnRuns(s: Sys, stacks: seq<Stack>)
    requires Table(s, stacks, s.scheduled) && s.pid != NONE && stacks[s.scheduled] != []
    ensures var top := stacks[s.scheduled][|stacks[s.scheduled]| - 1].slot;
            && 0 <= top < MAX_PCB
            && Table(Return(s, top), stacks, s.scheduled) && Running(Return(s, top), stacks)
  {
    var n := |stacks[s.scheduled]| - 1;
    assert EntryOk(s, stacks, s.scheduled, s.scheduled, n);
    var r := Return(s, stacks[s.scheduled][n].slot);
    forall t: nat, i: nat
      ensures EntryOk(r, stacks, s.scheduled, t, i)
    {
      assert EntryOk(s, stacks, s.scheduled, t, i);
    }
    forall t: nat
      ensures TerminalOk(r, stacks, s.scheduled, t)
    {
      assert TerminalOk(s, stacks, s.scheduled, t);
    }
  }

  lemma PushHolds(stacks: seq<Stack>, t0: nat, slot: int, ctx: Context, k: int)
    requires t0 < |stacks|
    ensures OnStack(stacks, k) || k == slot ==> OnStack(Push(stacks, t0, slot, ctx), k)
  {
    var pushed := Push(stacks, t0, slot, ctx);
    if OnStack(stacks, k) {
      var t: nat, i: nat :| Holds(stacks, t, i, k);
      assert Holds(pushed, t, i, k);
    } else if k == slot {
      assert Holds(pushed, t0, |stacks[t0]|, k);
    }
  }

  lemma PushDistinct(stacks: seq<Stack>, t0: nat, slot: int, ctx: Context)
    requires t0 < |stacks| && Distinct(stacks) && !OnStack(stacks, slot)
    ensures Distinct(Push(stacks, t0, slot, ctx))
  {
    forall t: nat, i: nat, u: nat, j: nat
      ensures Apart(Push(stacks, t0, slot, ctx), t, i, u, j)
    {
      assert Apart(stacks, t, i, u, j);
      assert !Holds(stacks, t, i, slot) && !Holds(stacks, u, j, slot);
    }
  }

  /** The running process, if any, is the top of the scheduled stack. */
  predicate AtTop(s: Sys, stacks: seq<Stack>) {
    && s.Shaped() && |stacks| == TERMINALS && NONE <= s.curr < MAX_PCB
    && (stacks[s.scheduled] != [] ==> s.curr == stacks[s.scheduled][|stacks[s.scheduled]| - 1].slot)
  }

  lemma TopFacts(s: Sys, stacks: seq<Stack>, run: int)
    requires Table(s, stacks, run) && AtTop(s, stacks)
    ensures s.Here().countPcb == |stacks[s.scheduled]|
    ensures stacks[s.scheduled] != [] ==> 0 <= s.curr < MAX_PCB && s.pcbs[s.curr].pid == s.curr && s.pcbs[s.curr].active
  {
    assert TerminalOk(s, stacks, run, s.scheduled);
    if stacks[s.scheduled] != [] {
      assert EntryOk(s, stacks, run, s.scheduled, |stacks[s.scheduled]| - 1);
    }
  }

  /** The active slots are exactly those on the stacks. */
  lemma ActiveIsOnStack(s: Sys, stacks: seq<Stack>, run: int, k: int)
    requires Table(s, stacks, run)
    ensures OnStack(stacks, k) <==> 0 <= k < MAX_PCB && s.pcbs[k].active
  {
    if OnStack(stacks, k) {
      var t: nat, i: nat :| Holds(stacks, t, i, k);
      assert EntryOk(s, stacks, run, t, i);
    }
  }

  /** Launching pushes: the caller's registers are saved where the new process's halt will find them. */
  lemma LaunchPushes(s: Sys, stacks: seq<Stack>, slot: int, ctx: Context)
    requires Table(s, stacks, s.scheduled) && AtTop(s, stacks)
    requires 0 <= slot < MAX_PCB && !s.pcbs[slot].active
    ensures s.Here().countPcb != 0 ==> s.curr != NONE && SlotOrNone(s.pcbs[s.curr].pid)
    ensures Table(Launch(s, slot, ctx), Push(stacks, s.scheduled, slot, ctx), s.scheduled)
  {
    TopFacts(s, stacks, s.scheduled);
    ActiveIsOnStack(s, stacks, s.scheduled, slot);
    var t0 := s.scheduled;
    var pushed := Push(stacks, t0, slot, ctx);
    var r := Launch(s, slot, ctx);
    PushDistinct(stacks, t0, slot, ctx);
    forall t: nat, i: nat
      ensures EntryOk(r, pushed, t0, t, i)
    {
      LaunchEntry(s, stacks, slot, ctx, t, i);
    }
    forall k | 0 <= k < MAX_PCB && r.pcbs[k].active
      ensures OnStack(pushed, k)
    {
      PushHolds(stacks, t0, slot, ctx, k);
    }
    forall t: nat
      ensures TerminalOk(r, pushed, t0, t)
    {
      assert TerminalOk(s, stacks, t0, t);
    }
  }

  lemma LaunchEntry(s: Sys, stacks: seq<Stack>, slot: int, ctx: Context, t: nat, i: nat)
    requires s.Shaped() && |stacks| == TERMINALS && EntriesOk(s, stacks, s.scheduled) && Distinct(stacks)
    requires AtTop(s, stacks) && s.Here().countPcb == |stacks[s.scheduled]|
    requires stacks[s.scheduled] != [] ==> 0 <= s.curr < MAX_PCB && s.pcbs[s.curr].pid == s.curr
    requires 0 <= slot < MAX_PCB && !OnStack(stacks, slot)
    ensures EntryOk(Launch(s, slot, ctx), Push(stacks, s.scheduled, slot, ctx), s.scheduled, t, i)
  {
    var t0 := s.scheduled;
    assert EntryOk(s, stacks, t0, t, i);
    assert !Holds(stacks, t, i, slot);
    if stacks[t0] != [] {
      assert Apart(stacks, t, i, t0, |stacks[t0]| - 1);
      assert !Holds(stacks, t0, |stacks[t0]| - 1, slot);
    }
  }

  /** Putting the running process away makes every entry's registers count. */
  lemma SuspendSaves(s: Sys, stacks: seq<Stack>, ctx: Context)
    requires Sound(s, stacks)
    ensures var r := Suspend(s, ctx);
            Table(r, stacks[s.scheduled := Saved(stacks[s.scheduled], ctx)], NONE)
  {
    var t0 := s.scheduled;
    var r := Suspend(s, ctx);
    var saved := stacks[t0 := Saved(stacks[t0], ctx)];
    forall t: nat, i: nat, u: nat, j: nat
      ensures Apart(saved, t, i, u, j)
    {
      assert Apart(stacks, t, i, u, j);
    }
    forall t: nat, i: nat
      ensures EntryOk(r, saved, NONE, t, i)
    {
      assert EntryOk(s, stacks, t0, t, i);
      if stacks[t0] != [] {
        assert Apart(stacks, t, i, t0, |stacks[t0]| - 1);
      }
    }
    forall k | 0 <= k < MAX_PCB && r.pcbs[k].active
      ensures OnStack(saved, k)
    {
      assert OnStack(stacks, k);
      var t: nat, i: nat :| Holds(stacks, t, i, k);
      assert Holds(saved, t, i, k);
    }
    forall t: nat
      ensures TerminalOk(r, saved, NONE, t)
    {
      assert TerminalOk(s, stacks, t0, t);
    }
  }

  lemma RotateKeeps(s: Sys, stacks: seq<Stack>)
    requires Table(s, stacks, NONE)
    ensures Table(Rotate(s), stacks, NONE)
    ensures NONE <= s.curr < MAX_PCB ==> AtTop(Rotate(s), stacks)
  {
    var r := Rotate(s);
    forall t: nat, i: nat
      ensures EntryOk(r, stacks, NONE, t, i)
    {
      assert EntryOk(s, stacks, NONE, t, i);
    }
    forall t: nat
      ensures TerminalOk(r, stacks, NONE, t)
    {
      assert TerminalOk(s, stacks, NONE, t);
    }
    assert TerminalOk(s, stacks, NONE, r.scheduled);
    assert EntryOk(s, stacks, NONE, r.scheduled, if stacks[r.scheduled] == [] then 0 else |stacks[r.scheduled]| - 1);
  }

  /** A suspended table serves whichever terminal runs next. */
  lemma AnyMayRun(s: Sys, stacks: seq<Stack>, run: int)
    requires Table(s, stacks, NONE)
    ensures Table(s, stacks, run)
  {
    forall t: nat, i: nat
      ensures EntryOk(s, stacks, run, t, i)
    {
      assert EntryOk(s, stacks, NONE, t, i);
    }
    forall t: nat
      ensures TerminalOk(s, stacks, run, t)
    {
      assert TerminalOk(s, stacks, NONE, t);
    }
  }

  /** Resuming picks up the saved top of the scheduled terminal, with its own kernel stack. */
  lemma ResumeRuns(s: Sys, stacks: seq<Stack>)
    requires Table(s, stacks, NONE) && s.pid != NONE && stacks[s.scheduled] != []
    ensures 0 <= s.Here().pcbPtr < MAX_PCB
    ensures Table(Resume(s), stacks, s.scheduled) && Running(Resume(s), stacks)
    ensures s.pcbs[s.Here().pcbPtr].saved == stacks[s.scheduled][|stacks[s.scheduled]| - 1].saved
  {
    var t0 := s.scheduled;
    assert TerminalOk(s, stacks, NONE, t0);
    assert EntryOk(s, stacks, NONE, t0, |stacks[t0]| - 1);
    AnyMayRun(s, stacks, t0);
    var r := Resume(s);
    forall t: nat, i: nat
      ensures EntryOk(r, stacks, t0, t, i)
    {
      assert EntryOk(s, stacks, t0, t, i);
    }
    forall t: nat
      ensures TerminalOk(r, stacks, t0, t)
    {
      assert TerminalOk(s, stacks, t0, t);
    }
  }
}
