/** Whole runs of `execute`, `halt` and timer ticks, each one atomic step. */
module ProcessRuns {
  import opened FileSystem
  import opened Directory
  import opened ProcessSpec
  import opened Terminals
  import opened ProcessStacks

  /** The registers are those live when the step saves them. */
  datatype Step = ExecStep(command: Command, ctx: Context) | HaltStep(ctx: Context) | TickStep(ctx: Context)

  /** The file system has a shell to start. */
  predicate UsableShell(img: Image) {
    WellFormedDirectory(img) && PassesChecks(img, Named(SHELL))
  }

  predicate HasFreeSlot(s: Sys) {
    EmptyFrom(s.pcbs, 0) < |s.pcbs|
  }

  /** The first process is the kernel's own shell; a terminal's first tick finds a free slot. */
  predicate Enabled(s: Sys, step: Step)
    requires s.Shaped()
  {
    match step
    case ExecStep(command, _) => s.Booted() || command == Named(SHELL)
    case HaltStep(_) => s.Booted()
    case TickStep(_) => s.terminals[Next(s.scheduled)].countPcb != 0 || HasFreeSlot(s)
  }

  predicate Executable(s: Sys) {
    && s.Shaped() && NONE <= s.curr < MAX_PCB
    && (s.Here().countPcb != 0 ==> s.curr != NONE && SlotOrNone(s.pcbs[s.curr].pid))
  }

  predicate Possible(s: Sys, step: Step) {
    match step
    case ExecStep(_, _) => Executable(s)
    case HaltStep(_) => Haltable(s)
    case TickStep(_) => Tickable(s)
  }

  function Do(s: Sys, img: Image, step: Step): (r: Sys)
    requires WellFormedDirectory(img) && Possible(s, step)
    ensures r.Shaped()
  {
    match step
    case ExecStep(command, ctx) => Execute(s, img, command, ctx).sys
    case HaltStep(ctx) =>
      (match Halt(s, img, ctx)
       case Resumed(sys, _) => sys
       case Relaunched(outcome) => outcome.sys)
    case TickStep(ctx) =>
      (match Tick(s, img, ctx)
       case Switched(sys, _) => sys
       case Started(outcome) => outcome.sys)
  }

  /** The stacks after a step. */
  function StacksAfter(s: Sys, img: Image, stacks: seq<Stack>, step: Step): (r: seq<Stack>)
    requires WellFormedDirectory(img) && Possible(s, step) && s.Shaped() && |stacks| == TERMINALS
    requires step.HaltStep? ==> stacks[s.scheduled] != []
    ensures |r| == TERMINALS
  {
    var t := s.scheduled;
    match step
    case ExecStep(command, ctx) =>
      (match Execute(s, img, command, ctx)
       case Launched(_, slot) => Push(stacks, t, slot, ctx)
       case Refused(_, _) => stacks)
    case HaltStep(ctx) =>
      (match Halt(s, img, ctx)
       case Resumed(_, _) => Pop(stacks, t)
       case Relaunched(outcome) =>
         if outcome.Launched? then Push(Pop(stacks, t), t, outcome.slot, ctx) else Pop(stacks, t))
    case TickStep(ctx) =>
      var put := stacks[t := Saved(stacks[t], ctx)];
      (match Tick(s, img, ctx)
       case Switched(_, _) => put
       case Started(outcome) =>
         if outcome.Launched? then Push(put, Next(t), outcome.slot, ctx) else put)
  }

  lemma SoundAtTop(s: Sys, stacks: seq<Stack>)
    requires Sound(s, stacks)
    ensures AtTop(s, stacks) && Executable(s)
    ensures s.Booted() <==> Running(s, stacks)
    ensures !s.Booted() ==> HasFreeSlot(s)
  {
    TopFacts(s, stacks, s.scheduled);
    if !s.Booted() {
      ActiveIsOnStack(s, stacks, s.scheduled, 0);
      assert forall t: nat, i: nat :: !Holds(stacks, t, i, 0);
    }
  }

  /** Mapping a slot and recording its number changes no process. */
  lemma SameTable(s: Sys, r: Sys, stacks: seq<Stack>, run: int)
    requires Table(s, stacks, run)
    requires r.pcbs == s.pcbs && r.terminals == s.terminals && r.scheduled == s.scheduled
    ensures Table(r, stacks, run)
  {
    forall t: nat, i: nat
      ensures EntryOk(r, stacks, run, t, i)
    {
      assert EntryOk(s, stacks, run, t, i);
    }
    forall t: nat
      ensures TerminalOk(r, stacks, run, t)
    {
      assert TerminalOk(s, stacks, run, t);
    }
  }

  /** An `execute` that finds a free slot for a program that passes the checks pushes it and runs it. */
  lemma ExecuteRuns(s: Sys, img: Image, stacks: seq<Stack>, command: Command, ctx: Context)
    requires WellFormedDirectory(img) && Table(s, stacks, s.scheduled) && AtTop(s, stacks)
    requires PassesChecks(img, command) && HasFreeSlot(s)
    ensures Executable(s)
    ensures var r := Execute(s, img, command, ctx);
            && r.Launched? && 0 <= r.slot < MAX_PCB && !s.pcbs[r.slot].active
            && Sound(r.sys, Push(stacks, s.scheduled, r.slot, ctx)) && r.sys.Booted()
  {
    TopFacts(s, stacks, s.scheduled);
    LoadNeverFails(img, command);
    var slot := EmptyFrom(s.pcbs, 0);
    var mapped := s.(pid := slot, pageDir32 := PageEntry(slot));
    SameTable(s, mapped, stacks, s.scheduled);
    LaunchPushes(mapped, stacks, slot, ctx);
  }

  /** The process below, if any, is the parent. */
  lemma ParentIsBelow(s: Sys, stacks: seq<Stack>)
    requires Sound(s, stacks) && s.Booted()
    ensures var stack := stacks[s.scheduled];
            && Haltable(s)
            && (s.pcbs[s.curr].parentId == NONE <==> |stack| == 1)
            && (|stack| > 1 ==> s.pcbs[s.curr].parentId == stack[|stack| - 2].slot)
  {
    SoundAtTop(s, stacks);
    var n := |stacks[s.scheduled]|;
    assert EntryOk(s, stacks, s.scheduled, s.scheduled, n - 1);
    if n > 1 {
      assert EntryOk(s, stacks, s.scheduled, s.scheduled, n - 2);
    }
    TopFacts(s, stacks, s.scheduled);
  }

  lemma HaltSound(s: Sys, img: Image, stacks: seq<Stack>, ctx: Context)
    requires UsableShell(img) && Sound(s, stacks) && s.Booted()
    ensures Haltable(s) && stacks[s.scheduled] != []
    ensures Sound(Do(s, img, HaltStep(ctx)), StacksAfter(s, img, stacks, HaltStep(ctx)))
    ensures Do(s, img, HaltStep(ctx)).Booted()
    ensures |stacks[s.scheduled]| > 1 ==>
              var below := stacks[s.scheduled][|stacks[s.scheduled]| - 2];
              && Halt(s, img, ctx).Resumed? && Halt(s, img, ctx).ctx == below.saved
              && Do(s, img, HaltStep(ctx)).curr == below.slot
  {
    SoundAtTop(s, stacks);
    ParentIsBelow(s, stacks);
    LeavePops(s, stacks);
    var popped := Pop(stacks, s.scheduled);
    if |stacks[s.scheduled]| == 1 {
      assert !Leave(s).pcbs[s.curr].active;
      ExecuteRuns(Leave(s), img, popped, Named(SHELL), ctx);
    } else {
      ReturnRuns(Leave(s), popped);
      assert EntryOk(Leave(s), popped, s.scheduled, s.scheduled, |stacks[s.scheduled]| - 2);
      var n := |stacks[s.scheduled]| - 2;
      assert EntryOk(s, stacks, s.scheduled, s.scheduled, n);
      assert Apart(stacks, s.scheduled, n, s.scheduled, n + 1);
    }
  }

  lemma TickPossible(s: Sys, stacks: seq<Stack>)
    requires Sound(s, stacks)
    ensures Tickable(s)
    ensures s.terminals[Next(s.scheduled)].countPcb == |stacks[Next(s.scheduled)]|
  {
    SoundAtTop(s, stacks);
    var t := Next(s.scheduled);
    assert TerminalOk(s, stacks, s.scheduled, t);
    if stacks[t] != [] {
      assert EntryOk(s, stacks, s.scheduled, t, |stacks[t]| - 1);
    }
  }

  /** The table once the running process is put away and the next terminal scheduled. */
  lemma RotatedTable(s: Sys, stacks: seq<Stack>, ctx: Context)
    requires Sound(s, stacks)
    ensures Tickable(s)
    ensures var put := stacks[s.scheduled := Saved(stacks[s.scheduled], ctx)];
            var next := Rotate(Suspend(s, ctx));
            && Table(next, put, NONE) && AtTop(next, put)
            && next.Here().countPcb == |put[next.scheduled]|
            && (put[next.scheduled] != [] ==> next.pid != NONE)
  {
    SoundAtTop(s, stacks);
    TickPossible(s, stacks);
    SuspendSaves(s, stacks, ctx);
    var put := stacks[s.scheduled := Saved(stacks[s.scheduled], ctx)];
    RotateKeeps(Suspend(s, ctx), put);
    assert TerminalOk(Rotate(Suspend(s, ctx)), put, NONE, Next(s.scheduled));
  }

  lemma TickSound(s: Sys, img: Image, stacks: seq<Stack>, ctx: Context)
    requires UsableShell(img) && Sound(s, stacks) && Enabled(s, TickStep(ctx))
    ensures Tickable(s)
    ensures Sound(Do(s, img, TickStep(ctx)), StacksAfter(s, img, stacks, TickStep(ctx)))
    ensures Do(s, img, TickStep(ctx)).Booted() && Do(s, img, TickStep(ctx)).scheduled == Next(s.scheduled)
    ensures stacks[Next(s.scheduled)] != [] ==>
              var top := stacks[Next(s.scheduled)][|stacks[Next(s.scheduled)]| - 1];
              && Tick(s, img, ctx).Switched? && Tick(s, img, ctx).ctx == top.saved
              && Do(s, img, TickStep(ctx)).curr == top.slot
  {
    RotatedTable(s, stacks, ctx);
    var put := stacks[s.scheduled := Saved(stacks[s.scheduled], ctx)];
    var next := Rotate(Suspend(s, ctx));
    if put[next.scheduled] == [] {
      TickPossible(s, stacks);
      AnyMayRun(next, put, next.scheduled);
      SameFree(s, next);
      ExecuteRuns(next, img, put, Named(SHELL), ctx);
    } else {
      ResumeRuns(next, put);
    }
  }

  lemma SameFree(s: Sys, r: Sys)
    requires |s.pcbs| == |r.pcbs| && HasFreeSlot(s)
    requires forall k :: 0 <= k < |s.pcbs| ==> s.pcbs[k].active == r.pcbs[k].active
    ensures HasFreeSlot(r)
  {
    assert !r.pcbs[EmptyFrom(s.pcbs, 0)].active;
  }

  lemma ExecSound(s: Sys, img: Image, stacks: seq<Stack>, command: Command, ctx: Context)
    requires UsableShell(img) && Sound(s, stacks) && Enabled(s, ExecStep(command, ctx))
    ensures Executable(s)
    ensures Sound(Do(s, img, ExecStep(command, ctx)), StacksAfter(s, img, stacks, ExecStep(command, ctx)))
    ensures Do(s, img, ExecStep(command, ctx)).Booted()
  {
    SoundAtTop(s, stacks);
    if PassesChecks(img, command) && HasFreeSlot(s) {
      ExecuteRuns(s, img, stacks, command, ctx);
    } else {
      RefusedLeavesSystem(s, img, command, ctx);
      SameTable(s, Execute(s, img, command, ctx).sys, stacks, s.scheduled);
    }
  }

  /** Every step keeps the table made of one stack per terminal, with the running process on top of
      the scheduled one, mapped, and with its own kernel stack. */
  lemma StepSound(s: Sys, img: Image, stacks: seq<Stack>, step: Step)
    requires UsableShell(img) && Sound(s, stacks) && Enabled(s, step)
    ensures Possible(s, step) && (step.HaltStep? ==> stacks[s.scheduled] != [])
    ensures Sound(Do(s, img, step), StacksAfter(s, img, stacks, step))
    ensures Do(s, img, step).Booted()
  {
    match step {
      case ExecStep(command, ctx) => ExecSound(s, img, stacks, command, ctx);
      case HaltStep(ctx) => HaltSound(s, img, stacks, ctx);
      case TickStep(ctx) => TickSound(s, img, stacks, ctx);
    }
  }

  /** A run from a sound state, every step of it enabled. */
  ghost predicate RunEnabled(s: Sys, img: Image, stacks: seq<Stack>, steps: seq<Step>)
    requires UsableShell(img) && Sound(s, stacks)
    decreases |steps|, 0
  {
    steps == [] ||
    (RunEnabled(s, img, stacks, steps[..|steps| - 1]) &&
     Enabled(Run(s, img, stacks, steps[..|steps| - 1]).0, steps[|steps| - 1]))
  }

  /** How many ticks a run has. */
  function Ticks(steps: seq<Step>): (n: nat)
    ensures n <= |steps|
    decreases |steps|
  {
    if steps == [] then 0
    else Ticks(steps[..|steps| - 1]) + if steps[|steps| - 1].TickStep? then 1 else 0
  }

  lemma ExecuteKeepsTurn(s: Sys, img: Image, command: Command, ctx: Context)
    requires Executable(s) && WellFormedDirectory(img)
    ensures Execute(s, img, command, ctx).sys.scheduled == s.scheduled
  {
  }

  lemma TickTurns(s: Sys, img: Image, ctx: Context)
    requires WellFormedDirectory(img) && Tickable(s)
    ensures Do(s, img, TickStep(ctx)).scheduled == Next(s.scheduled)
  {
    var next := Rotate(Suspend(s, ctx));
    if next.Here().countPcb == 0 {
      ExecuteKeepsTurn(next, img, Named(SHELL), ctx);
    }
  }

  /** A tick moves on to the terminal after, from the last back to the first; nothing else moves on. */
  lemma StepTurns(s: Sys, img: Image, step: Step)
    requires WellFormedDirectory(img) && Possible(s, step)
    ensures Do(s, img, step).scheduled ==
            if !step.TickStep? then s.scheduled else if s.scheduled == 2 then 0 else s.scheduled + 1
  {
    match step {
      case ExecStep(command, ctx) => ExecuteKeepsTurn(s, img, command, ctx);
      case HaltStep(ctx) =>
        if s.pcbs[s.curr].parentId == NONE {
          ExecuteKeepsTurn(Leave(s), img, Named(SHELL), ctx);
        }
      case TickStep(ctx) =>
        TickTurns(s, img, ctx);
        NextInOrder(s.scheduled);
    }
  }

  /** The state and the stacks after a run. */
  ghost function Run(s: Sys, img: Image, stacks: seq<Stack>, steps: seq<Step>): (r: (Sys, seq<Stack>))
    requires UsableShell(img) && Sound(s, stacks) && RunEnabled(s, img, stacks, steps)
    ensures Sound(r.0, r.1)
    ensures s.Booted() || steps != [] ==> r.0.Booted()
    decreases |steps|, 1
  {
    if steps == [] then (s, stacks)
    else
      var before := Run(s, img, stacks, steps[..|steps| - 1]);
      var step := steps[|steps| - 1];
      StepSound(before.0, img, before.1, step);
      (Do(before.0, img, step), StacksAfter(before.0, img, before.1, step))
  }

  /** The machine before the kernel starts anything. */
  predicate Fresh(s: Sys) {
    && s.Shaped() && s.curr == NONE && s.pid == NONE
    && (forall k :: 0 <= k < MAX_PCB ==> !s.pcbs[k].active)
    && (forall t :: 0 <= t < TERMINALS ==> s.terminals[t] == Terminal(NONE, 0))
  }

  lemma FreshIsSound(s: Sys)
    requires Fresh(s)
    ensures Sound(s, [[], [], []])
  {
    var stacks: seq<Stack> := [[], [], []];
    assert forall t: nat, i: nat :: EntryOk(s, stacks, s.scheduled, t, i);
    assert forall t: nat, i: nat, u: nat, j: nat :: Apart(stacks, t, i, u, j);
    assert forall t: nat :: TerminalOk(s, stacks, s.scheduled, t);
  }

  /** A terminal's count is the height of its stack, and while it is not scheduled its saved pointer is
      its own top, to be entered on that process's own kernel stack. */
  predicate TerminalAgrees(s: Sys, stacks: seq<Stack>, t: nat)
    requires s.Shaped() && |stacks| == TERMINALS && t < TERMINALS
  {
    && s.terminals[t].countPcb == |stacks[t]|
    && (t != s.scheduled && stacks[t] != [] ==>
          var top := s.terminals[t].pcbPtr;
          && top == stacks[t][|stacks[t]| - 1].slot
          && 0 <= top < MAX_PCB && s.pcbs[top].active && s.pcbs[top].tid == t
          && s.pcbs[top].tssEsp0 == s.pcbs[top].esp0)
  }

  lemma SoundAgrees(s: Sys, stacks: seq<Stack>, t: nat)
    requires Sound(s, stacks) && t < TERMINALS
    ensures TerminalAgrees(s, stacks, t)
  {
    assert TerminalOk(s, stacks, s.scheduled, t);
    if stacks[t] != [] {
      assert EntryOk(s, stacks, s.scheduled, t, |stacks[t]| - 1);
    }
  }

  /** In every run from boot the process table is one stack per terminal; the counts are the heights,
      the running process is the top of the scheduled stack and is mapped, and every suspended
      terminal's saved pointer is its own top. */
  lemma {:induction false} RunsAreStacks(s: Sys, img: Image, steps: seq<Step>)
    requires UsableShell(img) && Fresh(s) && steps != []
    ensures Sound(s, [[], [], []])
    ensures RunEnabled(s, img, [[], [], []], steps) ==>
              var (r, stacks) := Run(s, img, [[], [], []], steps);
              Running(r, stacks) && forall t :: 0 <= t < TERMINALS ==> TerminalAgrees(r, stacks, t)
  {
    FreshIsSound(s);
    var start: seq<Stack> := [[], [], []];
    if RunEnabled(s, img, start, steps) {
      var (r, stacks) := Run(s, img, start, steps);
      SoundAtTop(r, stacks);
      forall t | 0 <= t < TERMINALS
        ensures TerminalAgrees(r, stacks, t)
      {
        SoundAgrees(r, stacks, t);
      }
    }
  }

  /** Following parent links from the process at height `i` of a stack leads down to its base shell,
      which has none. */
  lemma {:induction false} ParentsLeadToBase(s: Sys, stacks: seq<Stack>, t: nat, i: nat)
    requires Sound(s, stacks) && t < TERMINALS && i < |stacks[t]|
    ensures 0 <= stacks[t][i].slot < MAX_PCB
    ensures Ancestor(s, stacks[t][i].slot, i) == stacks[t][0].slot
    ensures Ancestor(s, stacks[t][i].slot, i + 1) == NONE
    ensures forall j :: 0 <= j <= i ==> Ancestor(s, stacks[t][i].slot, j) == stacks[t][i - j].slot
    decreases i
  {
    assert EntryOk(s, stacks, s.scheduled, t, i);
    if i == 0 {
    } else {
      ParentsLeadToBase(s, stacks, t, i - 1);
      forall j | 0 <= j <= i
        ensures Ancestor(s, stacks[t][i].slot, j) == stacks[t][i - j].slot
      {
        if j > 0 {
          assert Ancestor(s, stacks[t][i].slot, j) == Ancestor(s, stacks[t][i - 1].slot, j - 1);
        }
      }
    }
  }

  /** The `n`-th parent of a process. */
  function Ancestor(s: Sys, slot: int, n: nat): int
    requires |s.pcbs| == MAX_PCB
    decreases n
  {
    if n == 0 then slot
    else if 0 <= slot < MAX_PCB then Ancestor(s, s.pcbs[slot].parentId, n - 1)
    else slot
  }

  /** A step that leaves a stack higher than `h` does not touch its lowest `h` entries. */
  lemma LowEntriesStay(s: Sys, img: Image, stacks: seq<Stack>, step: Step, t: nat, h: nat)
    requires UsableShell(img) && Sound(s, stacks) && Enabled(s, step) && t < TERMINALS
    requires Possible(s, step) && (step.HaltStep? ==> stacks[s.scheduled] != [])
    requires 0 < h < |stacks[t]| && h < |StacksAfter(s, img, stacks, step)[t]|
    ensures StacksAfter(s, img, stacks, step)[t][..h] == stacks[t][..h]
  {
    match step {
      case ExecStep(command, ctx) =>
      case HaltStep(ctx) => ParentIsBelow(s, stacks);
      case TickStep(ctx) => TickPossible(s, stacks);
    }
  }

  /** The terminal's process count stays above `h` throughout a run. */
  ghost predicate StaysAbove(s: Sys, img: Image, stacks: seq<Stack>, steps: seq<Step>, t: nat, h: int)
    requires UsableShell(img) && Sound(s, stacks) && RunEnabled(s, img, stacks, steps) && t < TERMINALS
    decreases |steps|
  {
    && Run(s, img, stacks, steps).0.terminals[t].countPcb > h
    && (steps != [] ==> StaysAbove(s, img, stacks, steps[..|steps| - 1], t, h))
  }

  lemma CountIsHeight(s: Sys, stacks: seq<Stack>, t: nat)
    requires Sound(s, stacks) && t < TERMINALS
    ensures s.terminals[t].countPcb == |stacks[t]|
  {
    assert TerminalOk(s, stacks, s.scheduled, t);
  }

  lemma {:induction false} LowEntriesStayThroughout(s: Sys, img: Image, stacks: seq<Stack>, steps: seq<Step>,
                                                    t: nat, h: nat)
    requires UsableShell(img) && Sound(s, stacks) && RunEnabled(s, img, stacks, steps) && t < TERMINALS && 0 < h
    requires StaysAbove(s, img, stacks, steps, t, h)
    ensures |stacks[t]| > h && |Run(s, img, stacks, steps).1[t]| > h
    ensures Run(s, img, stacks, steps).1[t][..h] == stacks[t][..h]
    decreases |steps|
  {
    var r := Run(s, img, stacks, steps);
    CountIsHeight(r.0, r.1, t);
    if steps == [] {
    } else {
      var before := Run(s, img, stacks, steps[..|steps| - 1]);
      LowEntriesStayThroughout(s, img, stacks, steps[..|steps| - 1], t, h);
      StepSound(before.0, img, before.1, steps[|steps| - 1]);
      LowEntriesStay(before.0, img, before.1, steps[|steps| - 1], t, h);
    }
  }

  /** The state and stacks once an `execute` of the running process has launched a program. */
  ghost function AfterExecute(s: Sys, img: Image, stacks: seq<Stack>, command: Command, ctx: Context)
    : (r: (Sys, seq<Stack>))
    requires UsableShell(img) && Sound(s, stacks) && s.Booted()
    ensures Sound(r.0, r.1)
  {
    ExecSound(s, img, stacks, command, ctx);
    (Do(s, img, ExecStep(command, ctx)), StacksAfter(s, img, stacks, ExecStep(command, ctx)))
  }

  /** `halt` resumes exactly the process that launched the halted one, with the very registers the
      matching `execute` saved, whatever ticks and other launches and halts came between: the run in
      between keeps more processes on the terminal than there were before the `execute`. */
  lemma {:induction false} HaltResumesLauncher(s: Sys, img: Image, stacks: seq<Stack>, command: Command, ctx: Context,
                                               steps: seq<Step>, haltCtx: Context)
    requires UsableShell(img) && Sound(s, stacks) && s.Booted()
    requires Executable(s) && Execute(s, img, command, ctx).Launched?
    requires var (launched, pushed) := AfterExecute(s, img, stacks, command, ctx);
             && RunEnabled(launched, img, pushed, steps)
             && StaysAbove(launched, img, pushed, steps, s.scheduled, s.Here().countPcb)
             && var r := Run(launched, img, pushed, steps).0;
             r.scheduled == s.scheduled && r.Here().countPcb == s.Here().countPcb + 1
    ensures var (launched, pushed) := AfterExecute(s, img, stacks, command, ctx);
            var r := Run(launched, img, pushed, steps).0;
            && Haltable(r)
            && Halt(r, img, haltCtx).Resumed?
            && Halt(r, img, haltCtx).sys.curr == s.curr
            && Halt(r, img, haltCtx).ctx == ctx
  {
    var t := s.scheduled;
    var (launched, pushed) := AfterExecute(s, img, stacks, command, ctx);
    CallerIsSaved(s, img, stacks, command, ctx);
    CountIsHeight(s, stacks, t);
    LowEntriesStayThroughout(launched, img, pushed, steps, t, |stacks[t]|);
    var (r, after) := Run(launched, img, pushed, steps);
    HaltReturnsTo(r, img, after, t, |stacks[t]|, pushed[t][..|stacks[t]|], haltCtx);
  }

  /** What `execute` leaves below the new process. */
  lemma CallerIsSaved(s: Sys, img: Image, stacks: seq<Stack>, command: Command, ctx: Context)
    requires UsableShell(img) && Sound(s, stacks) && s.Booted()
    requires Executable(s) && Execute(s, img, command, ctx).Launched?
    ensures var n := |stacks[s.scheduled]|;
            && n > 0 && |AfterExecute(s, img, stacks, command, ctx).1[s.scheduled]| == n + 1
            && AfterExecute(s, img, stacks, command, ctx).1[s.scheduled][..n][n - 1] == Entry(s.curr, ctx)
  {
    SoundAtTop(s, stacks);
  }

  lemma HaltReturnsTo(r: Sys, img: Image, after: seq<Stack>, t: nat, h: nat, low: Stack, haltCtx: Context)
    requires UsableShell(img) && Sound(r, after) && r.Booted()
    requires r.scheduled == t && r.Here().countPcb == h + 1 && 0 < h < |after[t]| && after[t][..h] == low
    ensures Haltable(r) && Halt(r, img, haltCtx).Resumed?
    ensures Halt(r, img, haltCtx).sys.curr == low[h - 1].slot && Halt(r, img, haltCtx).ctx == low[h - 1].saved
  {
    CountIsHeight(r, after, t);
    assert after[t][h - 1] == low[h - 1];
    HaltSound(r, img, after, haltCtx);
  }

  /** The state and stacks once the timer has taken the running process away. */
  ghost function AfterTick(s: Sys, img: Image, stacks: seq<Stack>, ctx: Context): (r: (Sys, seq<Stack>))
    requires UsableShell(img) && Sound(s, stacks) && Enabled(s, TickStep(ctx))
    ensures Sound(r.0, r.1)
  {
    TickSound(s, img, stacks, ctx);
    (Do(s, img, TickStep(ctx)), StacksAfter(s, img, stacks, TickStep(ctx)))
  }

  /** Terminal `t` is not scheduled at any point of a run. */
  ghost predicate Away(s: Sys, img: Image, stacks: seq<Stack>, steps: seq<Step>, t: nat)
    requires UsableShell(img) && Sound(s, stacks) && RunEnabled(s, img, stacks, steps)
    decreases |steps|
  {
    && Run(s, img, stacks, steps).0.scheduled != t
    && (steps != [] ==> Away(s, img, stacks, steps[..|steps| - 1], t))
  }

  /** A step reaches only the stacks of the terminals scheduled before and after it. */
  lemma StepLeavesOthers(s: Sys, img: Image, stacks: seq<Stack>, step: Step, t: nat)
    requires UsableShell(img) && Sound(s, stacks) && Enabled(s, step) && t < TERMINALS
    requires Possible(s, step) && (step.HaltStep? ==> stacks[s.scheduled] != [])
    requires s.scheduled != t && Do(s, img, step).scheduled != t
    ensures StacksAfter(s, img, stacks, step)[t] == stacks[t]
  {
  }

  lemma {:induction false} StackStaysWhileAway(s: Sys, img: Image, stacks: seq<Stack>, steps: seq<Step>, t: nat)
    requires UsableShell(img) && Sound(s, stacks) && RunEnabled(s, img, stacks, steps) && t < TERMINALS
    requires Away(s, img, stacks, steps, t)
    ensures Run(s, img, stacks, steps).1[t] == stacks[t]
    decreases |steps|
  {
    if steps == [] {
    } else {
      var before := Run(s, img, stacks, steps[..|steps| - 1]);
      StackStaysWhileAway(s, img, stacks, steps[..|steps| - 1], t);
      StepSound(before.0, img, before.1, steps[|steps| - 1]);
      StepLeavesOthers(before.0, img, before.1, steps[|steps| - 1], t);
    }
  }

  /** What the tick leaves on top of the terminal it goes away from. */
  lemma TopIsSaved(s: Sys, img: Image, stacks: seq<Stack>, ctx: Context)
    requires UsableShell(img) && Sound(s, stacks) && s.Booted() && Enabled(s, TickStep(ctx))
    ensures var stack := AfterTick(s, img, stacks, ctx).1[s.scheduled];
            stack != [] && stack[|stack| - 1] == Entry(s.curr, ctx)
  {
    SoundAtTop(s, stacks);
    TickPossible(s, stacks);
  }

  lemma TickResumesTop(r: Sys, img: Image, stacks: seq<Stack>, t: nat, top: Entry, back: Context)
    requires UsableShell(img) && Sound(r, stacks) && t < TERMINALS && t == Next(r.scheduled)
    requires stacks[t] != [] && stacks[t][|stacks[t]| - 1] == top
    ensures Tickable(r) && Tick(r, img, back).Switched?
    ensures Tick(r, img, back).sys.curr == top.slot && Tick(r, img, back).ctx == top.saved
    ensures Tick(r, img, back).sys.scheduled == t
  {
    CountIsHeight(r, stacks, t);
    TickSound(r, img, stacks, back);
  }

  /** When a terminal's turn comes again, exactly the process the timer took away goes on, with the
      registers it had, whatever the other terminals launched and halted in between. */
  lemma {:induction false} TurnResumesProcess(s: Sys, img: Image, stacks: seq<Stack>, ctx: Context,
                                              steps: seq<Step>, back: Context)
    requires UsableShell(img) && Sound(s, stacks) && s.Booted() && Enabled(s, TickStep(ctx))
    requires var (gone, put) := AfterTick(s, img, stacks, ctx);
             && RunEnabled(gone, img, put, steps) && Away(gone, img, put, steps, s.scheduled)
             && s.scheduled == Next(Run(gone, img, put, steps).0.scheduled)
    ensures var (gone, put) := AfterTick(s, img, stacks, ctx);
            var r := Run(gone, img, put, steps).0;
            && Tickable(r) && Tick(r, img, back).Switched?
            && Tick(r, img, back).sys.scheduled == s.scheduled && Tick(r, img, back).sys.curr == s.curr
            && Tick(r, img, back).ctx == ctx
  {
    var (gone, put) := AfterTick(s, img, stacks, ctx);
    TopIsSaved(s, img, stacks, ctx);
    StackStaysWhileAway(gone, img, put, steps, s.scheduled);
    var (r, after) := Run(gone, img, put, steps);
    TickResumesTop(r, img, after, s.scheduled, Entry(s.curr, ctx), back);
  }

  /** A tick to a terminal without processes when every slot is taken schedules a terminal with nothing
      to run: no reading of the table as stacks fits the result. Any other tick keeps the stacks. */
  lemma TickKeepsExactly(s: Sys, img: Image, stacks: seq<Stack>, ctx: Context)
    requires UsableShell(img) && Sound(s, stacks)
    ensures Tickable(s)
    ensures (exists after :: Sound(Do(s, img, TickStep(ctx)), after)) <==> Enabled(s, TickStep(ctx))
  {
    TickPossible(s, stacks);
    if Enabled(s, TickStep(ctx)) {
      TickSound(s, img, stacks, ctx);
    } else {
      SoundAtTop(s, stacks);
      var r := Do(s, img, TickStep(ctx));
      assert r.Here().countPcb == 0 && r.Booted();
      forall after
        ensures !Sound(r, after)
      {
        if Table(r, after, r.scheduled) {
          assert TerminalOk(r, after, r.scheduled, r.scheduled);
        }
      }
    }
  }

  function One(b: bool): int {
    if b then 1 else 0
  }

  function FreeSlots(pcbs: seq<Pcb>): int
    requires |pcbs| == MAX_PCB
  {
    One(!pcbs[0].active) + One(!pcbs[1].active) + One(!pcbs[2].active) +
    One(!pcbs[3].active) + One(!pcbs[4].active) + One(!pcbs[5].active)
  }

  function Unlaunched(terminals: seq<Terminal>): int
    requires |terminals| == TERMINALS
  {
    One(terminals[0].countPcb == 0) + One(terminals[1].countPcb == 0) + One(terminals[2].countPcb == 0)
  }

  /** One free slot is kept for every terminal that has no shell yet. */
  predicate Reserved(s: Sys)
    requires s.Shaped()
  {
    FreeSlots(s.pcbs) >= Unlaunched(s.terminals)
  }

  /** A program may be launched beside a terminal's shell only while a slot is left over. */
  predicate Spares(s: Sys, step: Step)
    requires s.Shaped()
  {
    match step
    case ExecStep(command, _) =>
      if s.Booted() then FreeSlots(s.pcbs) > Unlaunched(s.terminals) else command == Named(SHELL)
    case HaltStep(_) => s.Booted()
    case TickStep(_) => true
  }

  predicate CountsOk(s: Sys)
    requires s.Shaped()
  {
    forall t :: 0 <= t < TERMINALS ==> s.terminals[t].countPcb >= 0
  }

  lemma LaunchCounts(s: Sys, slot: int, ctx: Context)
    requires Executable(s) && CountsOk(s) && 0 <= slot < MAX_PCB && !s.pcbs[slot].active
    ensures FreeSlots(Launch(s, slot, ctx).pcbs) == FreeSlots(s.pcbs) - 1
    ensures Unlaunched(Launch(s, slot, ctx).terminals) == Unlaunched(s.terminals) - One(s.Here().countPcb == 0)
  {
    OneTaken(s.pcbs, Launch(s, slot, ctx).pcbs, slot);
    OneMore(s.terminals, Launch(s, slot, ctx).terminals, s.scheduled);
  }

  lemma OneTaken(pcbs: seq<Pcb>, after: seq<Pcb>, slot: int)
    requires |pcbs| == |after| == MAX_PCB && 0 <= slot < MAX_PCB && !pcbs[slot].active
    requires forall k :: 0 <= k < MAX_PCB ==> after[k].active == (k == slot || pcbs[k].active)
    ensures FreeSlots(after) == FreeSlots(pcbs) - 1
  {
  }

  lemma OneMore(terminals: seq<Terminal>, after: seq<Terminal>, t: int)
    requires |terminals| == |after| == TERMINALS && 0 <= t < TERMINALS && terminals[t].countPcb >= 0
    requires after == terminals[t := terminals[t].(countPcb := terminals[t].countPcb + 1)]
    ensures Unlaunched(after) == Unlaunched(terminals) - One(terminals[t].countPcb == 0)
  {
  }

  /** A launch takes one free slot and gives the scheduled terminal a process. */
  lemma ExecuteCounts(s: Sys, img: Image, command: Command, ctx: Context)
    requires WellFormedDirectory(img) && Executable(s) && CountsOk(s)
    ensures var r := Execute(s, img, command, ctx);
            && FreeSlots(r.sys.pcbs) == FreeSlots(s.pcbs) - One(r.Launched?)
            && Unlaunched(r.sys.terminals) == Unlaunched(s.terminals) - One(r.Launched? && s.Here().countPcb == 0)
  {
    var slot := EmptyFrom(s.pcbs, 0);
    if slot < MAX_PCB {
      LaunchCounts(s.(pid := slot, pageDir32 := PageEntry(slot)), slot, ctx);
    }
  }

  lemma LeaveCounts(s: Sys)
    requires s.Shaped() && 0 <= s.curr < MAX_PCB && s.pcbs[s.curr].active && s.Here().countPcb > 0
    ensures FreeSlots(Leave(s).pcbs) == FreeSlots(s.pcbs) + 1
    ensures Unlaunched(Leave(s).terminals) == Unlaunched(s.terminals) + One(s.Here().countPcb == 1)
  {
  }

  lemma ShuffleCounts(s: Sys, ctx: Context)
    requires Tickable(s)
    ensures FreeSlots(Rotate(Suspend(s, ctx)).pcbs) == FreeSlots(s.pcbs)
    ensures Unlaunched(Rotate(Suspend(s, ctx)).terminals) == Unlaunched(s.terminals)
  {
    var r := Suspend(s, ctx);
    assert forall k :: 0 <= k < MAX_PCB ==> r.pcbs[k].active == s.pcbs[k].active;
  }

  lemma AllCountsOk(s: Sys, stacks: seq<Stack>)
    requires Sound(s, stacks)
    ensures CountsOk(s)
  {
    forall t | 0 <= t < TERMINALS
      ensures s.terminals[t].countPcb >= 0
    {
      CountIsHeight(s, stacks, t);
    }
  }

  /** With a slot reserved for every terminal without a shell, no tick is ever without one. */
  lemma ReserveIsEnough(s: Sys, img: Image, stacks: seq<Stack>, step: Step)
    requires UsableShell(img) && Sound(s, stacks) && Reserved(s) && Spares(s, step)
    ensures Enabled(s, step) && Possible(s, step)
    ensures Reserved(Do(s, img, step))
  {
    SomeFree(s);
    StepSound(s, img, stacks, step);
    SoundAtTop(s, stacks);
    AllCountsOk(s, stacks);
    match step {
      case ExecStep(command, ctx) => ExecuteCounts(s, img, command, ctx);
      case HaltStep(ctx) => HaltReserve(s, img, stacks, ctx);
      case TickStep(ctx) => TickReserve(s, img, stacks, ctx);
    }
  }

  /** Every step of the run leaves the reserve alone in the state it is taken in. */
  ghost predicate AllSpare(s: Sys, img: Image, stacks: seq<Stack>, steps: seq<Step>)
    requires UsableShell(img) && Sound(s, stacks)
    decreases |steps|
  {
    steps == [] ||
    var before := steps[..|steps| - 1];
    && AllSpare(s, img, stacks, before)
    && (RunEnabled(s, img, stacks, before) ==> Spares(Run(s, img, stacks, before).0, steps[|steps| - 1]))
  }

  lemma LastStepGoesOn(s: Sys, img: Image, stacks: seq<Stack>, steps: seq<Step>)
    requires UsableShell(img) && Sound(s, stacks) && steps != []
    requires var before := steps[..|steps| - 1];
             && RunEnabled(s, img, stacks, before) && Reserved(Run(s, img, stacks, before).0)
             && Spares(Run(s, img, stacks, before).0, steps[|steps| - 1])
    ensures RunEnabled(s, img, stacks, steps) && Reserved(Run(s, img, stacks, steps).0)
  {
    var before := Run(s, img, stacks, steps[..|steps| - 1]);
    ReserveIsEnough(before.0, img, before.1, steps[|steps| - 1]);
  }

  /** With the reserve kept, a run never gets stuck for lack of a slot. */
  lemma {:induction false} ReservedRunsGoOn(s: Sys, img: Image, stacks: seq<Stack>, steps: seq<Step>)
    requires UsableShell(img) && Sound(s, stacks) && Reserved(s) && AllSpare(s, img, stacks, steps)
    ensures RunEnabled(s, img, stacks, steps) && Reserved(Run(s, img, stacks, steps).0)
    decreases |steps|
  {
    if steps == [] {
    } else {
      ReservedRunsGoOn(s, img, stacks, steps[..|steps| - 1]);
      LastStepGoesOn(s, img, stacks, steps);
    }
  }

  /** A user starts shells from the first terminal's shell. */
  function Shells(n: nat, ctx: Context): (steps: seq<Step>)
    ensures |steps| == n && forall i :: 0 <= i < n ==> steps[i] == ExecStep(Named(SHELL), ctx)
  {
    seq(n, _ => ExecStep(Named(SHELL), ctx))
  }

  /** One more shell takes one more slot and leaves the other terminals without a process. */
  lemma ShellTakesSlot(s: Sys, img: Image, stacks: seq<Stack>, ctx: Context)
    requires UsableShell(img) && Sound(s, stacks) && FreeSlots(s.pcbs) > 0
    ensures Enabled(s, ExecStep(Named(SHELL), ctx)) && Possible(s, ExecStep(Named(SHELL), ctx))
    ensures var r := Do(s, img, ExecStep(Named(SHELL), ctx));
            && FreeSlots(r.pcbs) == FreeSlots(s.pcbs) - 1 && r.scheduled == s.scheduled
            && forall t :: 0 <= t < TERMINALS && t != s.scheduled ==> r.terminals[t] == s.terminals[t]
  {
    SomeFree(s);
    SoundAtTop(s, stacks);
    AllCountsOk(s, stacks);
    ExecuteRuns(s, img, stacks, Named(SHELL), ctx);
    ExecuteCounts(s, img, Named(SHELL), ctx);
  }

  lemma {:induction false} ShellsTakeSlots(s: Sys, img: Image, stacks: seq<Stack>, ctx: Context, n: nat)
    requires UsableShell(img) && Sound(s, stacks) && n <= FreeSlots(s.pcbs)
    ensures RunEnabled(s, img, stacks, Shells(n, ctx))
    ensures var r := Run(s, img, stacks, Shells(n, ctx)).0;
            && FreeSlots(r.pcbs) == FreeSlots(s.pcbs) - n && r.scheduled == s.scheduled
            && forall t :: 0 <= t < TERMINALS && t != s.scheduled ==> r.terminals[t] == s.terminals[t]
  {
    if n == 0 {
    } else {
      ShellsTakeSlots(s, img, stacks, ctx, n - 1);
      assert Shells(n, ctx)[..n - 1] == Shells(n - 1, ctx);
      var before := Run(s, img, stacks, Shells(n - 1, ctx));
      ShellTakesSlot(before.0, img, before.1, ctx);
    }
  }

  /** The next tick leaves a state that no three stacks describe. */
  ghost predicate StuckByTick(s: Sys, img: Image, ctx: Context)
    requires WellFormedDirectory(img)
  {
    Tickable(s) && !exists after :: Sound(Do(s, img, TickStep(ctx)), after)
  }

  lemma FullTableSticks(s: Sys, img: Image, stacks: seq<Stack>, ctx: Context)
    requires UsableShell(img) && Sound(s, stacks)
    requires FreeSlots(s.pcbs) == 0 && s.terminals[Next(s.scheduled)].countPcb == 0
    ensures !Enabled(s, TickStep(ctx)) && StuckByTick(s, img, ctx)
  {
    SomeFree(s);
    TickKeepsExactly(s, img, stacks, ctx);
  }

  lemma RunSticks(s: Sys, img: Image, stacks: seq<Stack>, steps: seq<Step>, ctx: Context)
    requires UsableShell(img) && Sound(s, stacks) && RunEnabled(s, img, stacks, steps)
    requires var r := Run(s, img, stacks, steps).0;
             FreeSlots(r.pcbs) == 0 && r.terminals[Next(r.scheduled)].countPcb == 0
    ensures var r := Run(s, img, stacks, steps).0;
            !Enabled(r, TickStep(ctx)) && StuckByTick(r, img, ctx)
  {
    var (r, after) := Run(s, img, stacks, steps);
    FullTableSticks(r, img, after, ctx);
  }

  lemma NextUntouched(s: Sys, r: Sys)
    requires s.Shaped() && r.Shaped() && r.scheduled == s.scheduled
    requires forall t :: 0 <= t < TERMINALS && t != s.scheduled ==> r.terminals[t] == s.terminals[t]
    ensures r.terminals[Next(r.scheduled)] == s.terminals[Next(s.scheduled)]
  {
  }

  /** Shells on one terminal until no slot is free leave none for the next terminal. */
  lemma ShellsStopTheTick(s: Sys, img: Image, stacks: seq<Stack>, ctx: Context, n: nat)
    requires UsableShell(img) && Sound(s, stacks) && n == FreeSlots(s.pcbs)
    requires s.terminals[Next(s.scheduled)].countPcb == 0
    ensures RunEnabled(s, img, stacks, Shells(n, ctx))
    ensures var r := Run(s, img, stacks, Shells(n, ctx)).0;
            !Enabled(r, TickStep(ctx)) && StuckByTick(r, img, ctx)
  {
    ShellsTakeSlots(s, img, stacks, ctx, n);
    NextUntouched(s, Run(s, img, stacks, Shells(n, ctx)).0);
    RunSticks(s, img, stacks, Shells(n, ctx), ctx);
  }

  /** The failing side of the condition is reached from boot: after six shells on the first terminal
      the next tick has no slot for the next terminal's. */
  lemma SixShellsStopTheTick(s: Sys, img: Image, ctx: Context)
    requires UsableShell(img) && Fresh(s)
    ensures Sound(s, [[], [], []]) && RunEnabled(s, img, [[], [], []], Shells(MAX_PCB, ctx))
    ensures var r := Run(s, img, [[], [], []], Shells(MAX_PCB, ctx)).0;
            !Enabled(r, TickStep(ctx)) && StuckByTick(r, img, ctx)
  {
    FreshIsSound(s);
    ShellsStopTheTick(s, img, [[], [], []], ctx, MAX_PCB);
  }

  lemma HaltReserve(s: Sys, img: Image, stacks: seq<Stack>, ctx: Context)
    requires UsableShell(img) && Sound(s, stacks) && Reserved(s) && s.Booted()
    ensures Haltable(s) && Reserved(Do(s, img, HaltStep(ctx)))
  {
    ParentIsBelow(s, stacks);
    TopFacts(s, stacks, s.scheduled);
    AllCountsOk(s, stacks);
    HaltCounts(s, img, ctx);
  }

  lemma HaltCounts(s: Sys, img: Image, ctx: Context)
    requires UsableShell(img) && Haltable(s) && CountsOk(s) && Reserved(s)
    requires s.pcbs[s.curr].active && s.Here().countPcb > 0
    requires s.pcbs[s.curr].parentId != NONE ==> s.Here().countPcb > 1
    ensures Reserved(Do(s, img, HaltStep(ctx)))
  {
    LeaveCounts(s);
    if s.pcbs[s.curr].parentId == NONE {
      assert Executable(Leave(s)) && !Leave(s).pcbs[s.curr].active;
      ExecuteCounts(Leave(s), img, Named(SHELL), ctx);
      RefusedLeavesSystem(Leave(s), img, Named(SHELL), ctx);
    }
  }

  lemma TickReserve(s: Sys, img: Image, stacks: seq<Stack>, ctx: Context)
    requires UsableShell(img) && Sound(s, stacks) && Reserved(s) && Enabled(s, TickStep(ctx))
    ensures Tickable(s) && Reserved(Do(s, img, TickStep(ctx)))
  {
    TickPossible(s, stacks);
    AllCountsOk(s, stacks);
    ShuffleCounts(s, ctx);
    var next := Rotate(Suspend(s, ctx));
    if next.Here().countPcb == 0 {
      ExecuteCounts(next, img, Named(SHELL), ctx);
    }
  }

  lemma SomeFree(s: Sys)
    requires s.Shaped()
    ensures FreeSlots(s.pcbs) > 0 <==> HasFreeSlot(s)
  {
  }

  lemma LastStepTurns(s: Sys, img: Image, stacks: seq<Stack>, steps: seq<Step>)
    requires UsableShell(img) && Sound(s, stacks) && RunEnabled(s, img, stacks, steps) && steps != []
    ensures var t := Run(s, img, stacks, steps[..|steps| - 1]).0.scheduled;
            Run(s, img, stacks, steps).0.scheduled ==
            if !steps[|steps| - 1].TickStep? then t else if t == 2 then 0 else t + 1
  {
    var before := Run(s, img, stacks, steps[..|steps| - 1]);
    StepSound(before.0, img, before.1, steps[|steps| - 1]);
    StepTurns(before.0, img, steps[|steps| - 1]);
  }

  /** The terminal that the ticks of a run lead to. */
  function TurnAfter(start: int, steps: seq<Step>): (t: int)
    requires 0 <= start < 3
    ensures 0 <= t < 3
    decreases |steps|
  {
    if steps == [] then start
    else
      var t := TurnAfter(start, steps[..|steps| - 1]);
      if !steps[|steps| - 1].TickStep? then t else if t == 2 then 0 else t + 1
  }

  lemma {:induction false} RunTurns(s: Sys, img: Image, stacks: seq<Stack>, steps: seq<Step>)
    requires UsableShell(img) && Sound(s, stacks) && RunEnabled(s, img, stacks, steps)
    ensures Run(s, img, stacks, steps).0.scheduled == TurnAfter(s.scheduled, steps)
    decreases |steps|
  {
    if steps == [] {
    } else {
      RunTurns(s, img, stacks, steps[..|steps| - 1]);
      LastStepTurns(s, img, stacks, steps);
    }
  }

  lemma {:induction false} TicksTurn(start: int, steps: seq<Step>)
    requires 0 <= start < 3
    ensures TurnAfter(start, steps) == Turned(start, Ticks(steps)) == (start + Ticks(steps)) % 3
    decreases |steps|
  {
    TurnedInClosedForm(start, Ticks(steps));
    if steps == [] {
    } else {
      TicksTurn(start, steps[..|steps| - 1]);
    }
  }

  /** The scheduler goes round: after any run the scheduled terminal is as many places round the ring
      0, 1, 2 as there were ticks, whatever was executed and halted in between. */
  lemma TurnsGoRound(s: Sys, img: Image, stacks: seq<Stack>, steps: seq<Step>)
    requires UsableShell(img) && Sound(s, stacks) && RunEnabled(s, img, stacks, steps)
    ensures Run(s, img, stacks, steps).0.scheduled == Turned(s.scheduled, Ticks(steps))
  {
    RunTurns(s, img, stacks, steps);
    TicksTurn(s.scheduled, steps);
  }

  /** The length of the part of a run up to its `k`-th tick. */
  function UpToTick(steps: seq<Step>, k: nat): (n: nat)
    requires k <= Ticks(steps)
    ensures n <= |steps| && Ticks(steps[..n]) == k
    decreases |steps|
  {
    assert steps[..|steps|] == steps;
    if k == Ticks(steps) then |steps|
    else
      var n := UpToTick(steps[..|steps| - 1], k);
      assert steps[..|steps| - 1][..n] == steps[..n];
      n
  }

  /** A front part of a run. */
  lemma {:induction false} FrontIsEnabled(s: Sys, img: Image, stacks: seq<Stack>, steps: seq<Step>, n: nat)
    requires UsableShell(img) && Sound(s, stacks) && RunEnabled(s, img, stacks, steps) && n <= |steps|
    ensures RunEnabled(s, img, stacks, steps[..n])
    decreases |steps|
  {
    if n == |steps| {
      assert steps[..n] == steps;
    } else {
      FrontIsEnabled(s, img, stacks, steps[..|steps| - 1], n);
      assert steps[..|steps| - 1][..n] == steps[..n];
    }
  }

  /** No terminal is passed over: a run with at least two ticks has scheduled each of the three. */
  lemma {:induction false} EveryTerminalHasItsTurn(s: Sys, img: Image, stacks: seq<Stack>, steps: seq<Step>, t: int)
    returns (n: nat)
    requires UsableShell(img) && Sound(s, stacks) && RunEnabled(s, img, stacks, steps)
    requires Ticks(steps) >= 2 && 0 <= t < 3
    ensures n <= |steps| && RunEnabled(s, img, stacks, steps[..n])
    ensures Run(s, img, stacks, steps[..n]).0.scheduled == t
  {
    n := UpToTick(steps, TurnsTo(s.scheduled, t));
    FrontIsEnabled(s, img, stacks, steps, n);
    TurnsGoRound(s, img, stacks, steps[..n]);
  }
}
