/** The process table, the terminals' process records and the paging state as values, and the effect
    of `execute`, `halt` and the timer's scheduler on them. */
module ProcessSpec {
  import opened FileSystem
  import opened Directory
  import opened Options
  import opened Terminals

  const MAX_PCB := 6
  const NONE := -1
  const NO_SLOT := -2
  const EIGHT_MB := 0x80_0000
  const EIGHT_KB := 0x2000
  const EXE_FILE_LEN := 40
  const ENTRY_POINT_START := 24
  const TARGET_EIP_LENGTH := 4
  const MAGIC: seq<char> := ['\U{7f}', 'E', 'L', 'F']
  const SHELL: seq<char> := "shell" + ['\0']

  /** The stack registers a process is resumed with. */
  datatype Context = Context(esp: int, ebp: int)

  datatype Pcb = Pcb(pid: int, parentId: int, saved: Context, esp0: int, tssEsp0: int, active: bool, tid: int)

  /** `pcbPtr` is the slot of the saved process, or NONE for a null pointer. */
  datatype Terminal = Terminal(pcbPtr: int, countPcb: int)

  datatype Sys = Sys(pcbs: seq<Pcb>, terminals: seq<Terminal>, pid: int, curr: int, scheduled: int,
                     tssEsp0: int, pageDir32: int)
  {
    predicate Shaped() {
      |pcbs| == MAX_PCB && |terminals| == TERMINALS && 0 <= scheduled < TERMINALS
    }

    predicate Booted() {
      curr != NONE
    }

    function Here(): Terminal
      requires Shaped()
    {
      terminals[scheduled]
    }
  }

  /** Top of the kernel stack of a slot. */
  function Esp0(slot: int): int {
    EIGHT_MB - EIGHT_KB * slot - 4
  }

  /** Start of the 4 MB frame of a slot. */
  function Frame(slot: int): int {
    if slot == 0 then 0x80_0000
    else if slot == 1 then 0xC0_0000
    else if slot == 2 then 0x100_0000
    else if slot == 3 then 0x500_0000
    else if slot == 4 then 0x900_0000
    else if slot == 5 then 0xD00_0000
    else 0
  }

  /** The page directory entry of a slot: its frame, present, 4 MB, writable, user. */
  function PageEntry(slot: int): int {
    Frame(slot) + 0x87
  }

  /** Programs in different slots share no memory with each other or with the kernel's first 8 MB; their
      pages are present, 4 MB, writable and the user's. */
  lemma FramesAreDisjoint(a: int, b: int)
    requires 0 <= a < MAX_PCB && 0 <= b < MAX_PCB && a != b
    ensures Frame(a) % 0x40_0000 == 0
    ensures Frame(a) + 0x40_0000 <= Frame(b) || Frame(b) + 0x40_0000 <= Frame(a)
    ensures Frame(a) >= 0x80_0000 && PageEntry(a) == Frame(a) + 0x80 + 4 + 2 + 1
    ensures PageEntry(a) != PageEntry(b)
  {
  }

  /** Every slot's kernel stack ends inside 8 KB of its own, the one of a higher slot below. */
  lemma KernelStacksAreApart(a: int, b: int)
    requires 0 <= a < b < 6
    ensures 0x80_0000 - 0x2000 * (a + 1) < Esp0(a) && Esp0(a) + 4 <= 0x80_0000 - 0x2000 * a
    ensures Esp0(b) + 4 <= 0x80_0000 - 0x2000 * (a + 1)
  {
  }

  /** The first slot from `from` on that is not active, or the number of slots. */
  function EmptyFrom(pcbs: seq<Pcb>, from: nat): (k: nat)
    requires from <= |pcbs|
    ensures from <= k <= |pcbs|
    ensures forall i :: from <= i < k ==> pcbs[i].active
    ensures k < |pcbs| ==> !pcbs[k].active
    decreases |pcbs| - from
  {
    if from == |pcbs| || !pcbs[from].active then from else EmptyFrom(pcbs, from + 1)
  }

  /** What the command of an `execute` amounts to after parsing. */
  datatype Command = NullCommand | Unparsable | Named(name: seq<char>)

  /** What `read_data` returns. */
  function ReadStatus(img: Image, inode: int, offset: int, length: int): int
    requires WellFormed(img) && 0 <= offset && 0 <= length
  {
    if 0 <= inode < |img.inodes| then ReadCount(img.inodes[inode].length, offset, length) else -1
  }

  /** The checks `execute` makes before it touches the paging. */
  predicate PassesChecks(img: Image, command: Command)
    requires WellFormedDirectory(img)
  {
    && command.Named?
    && var d := Lookup(img, command.name);
    && d.Some?
    && ReadStatus(img, d.value.inodeId, 0, EXE_FILE_LEN) == EXE_FILE_LEN
    && Cut(FileOf(img, d.value.inodeId)[..EXE_FILE_LEN], |MAGIC|) == Cut(MAGIC, |MAGIC|)
    && ReadStatus(img, d.value.inodeId, ENTRY_POINT_START, TARGET_EIP_LENGTH) == TARGET_EIP_LENGTH
  }

  /** A program passes the checks exactly when its name leads to a file of at least 40 bytes that starts
      with the four of an ELF file. */
  lemma ChecksWantElf(img: Image, command: Command)
    requires WellFormedDirectory(img)
    ensures PassesChecks(img, command) <==>
            && command.Named?
            && match Lookup(img, command.name)
               case None => false
               case Some(d) =>
                 && 0 <= d.inodeId < |img.inodes| && |FileOf(img, d.inodeId)| >= 40
                 && FileOf(img, d.inodeId)[..4] == ['\U{7f}', 'E', 'L', 'F']
  {
    if command.Named? && Lookup(img, command.name).Some? {
      var inode := Lookup(img, command.name).value.inodeId;
      if 0 <= inode < |img.inodes| && |FileOf(img, inode)| >= 40 {
        CutIsFront(FileOf(img, inode)[..EXE_FILE_LEN]);
      }
    }
  }

  lemma CutIsFront(file: seq<char>)
    requires |file| == 40
    ensures Cut(file, 4) == Cut(MAGIC, 4) <==> file[..4] == ['\U{7f}', 'E', 'L', 'F']
  {
    CutIsLongest(file, 4);
    CutIsLongest(MAGIC, 4);
    assert Cut(MAGIC, 4) == MAGIC;
    if file[..4] == MAGIC {
      assert file[0] == MAGIC[0] && file[1] == MAGIC[1] && file[2] == MAGIC[2] && file[3] == MAGIC[3];
      assert |Cut(file, 4)| == 4;
    }
  }

  /** The check that the whole file was loaded, which comes after the paging has been set up. */
  predicate Loads(img: Image, command: Command)
    requires WellFormedDirectory(img) && PassesChecks(img, command)
  {
    var inode := Lookup(img, command.name).value.inodeId;
    img.inodes[inode].length == ReadStatus(img, inode, 0, img.inodes[inode].length)
  }

  /** A program that passes the first checks is always loaded whole. */
  lemma LoadNeverFails(img: Image, command: Command)
    requires WellFormedDirectory(img) && PassesChecks(img, command)
    ensures Loads(img, command)
  {
  }

  /** `create_pcb`; the saved registers of the slot are left as they were. */
  function Create(s: Sys, slot: int): (r: Sys)
    requires s.Shaped() && 0 <= slot < MAX_PCB && NONE <= s.curr < MAX_PCB
    requires s.Here().countPcb != 0 ==> s.curr != NONE
    ensures r.Shaped()
  {
    var parent := if s.Here().countPcb == 0 then NONE else s.pcbs[s.curr].pid;
    var pcb := Pcb(slot, parent, s.pcbs[slot].saved, Esp0(slot), s.tssEsp0, true, s.scheduled);
    s.(pcbs := s.pcbs[slot := pcb],
    terminals := s.terminals[s.scheduled := s.Here().(countPcb := s.Here().countPcb + 1)])
  }

  predicate SlotOrNone(k: int) {
    k == NONE || 0 <= k < MAX_PCB
  }

  /** From `create_pcb` to the switch into the new process, which runs from then on. */
  function Launch(s: Sys, slot: int, ctx: Context): (r: Sys)
    requires s.Shaped() && 0 <= slot < MAX_PCB && NONE <= s.curr < MAX_PCB
    requires s.Here().countPcb != 0 ==> s.curr != NONE && SlotOrNone(s.pcbs[s.curr].pid)
    ensures r.Shaped()
  {
    var made := Create(s, slot).(curr := slot);
    var parent := made.pcbs[slot].parentId;
    var kept := if parent == NONE then made
                else made.(pcbs := made.pcbs[parent := made.pcbs[parent].(saved := ctx)]);
    kept.(tssEsp0 := kept.pcbs[slot].esp0)
  }

  /** How `execute` ends: in the new process, or back in its caller with a status. */
  datatype Executed = Launched(sys: Sys, slot: int) | Refused(sys: Sys, status: int)

  function Execute(s: Sys, img: Image, command: Command, ctx: Context): (r: Executed)
    requires s.Shaped() && NONE <= s.curr < MAX_PCB && WellFormedDirectory(img)
    requires s.Here().countPcb != 0 ==> s.curr != NONE && SlotOrNone(s.pcbs[s.curr].pid)
    ensures r.sys.Shaped()
  {
    var slot := EmptyFrom(s.pcbs, 0);
    if command == NullCommand then Refused(s, -1)
    else if slot == MAX_PCB then Refused(s.(pid := NO_SLOT), 0)
    else if !PassesChecks(img, command) then Refused(s.(pid := slot), -1)
    else
      var mapped := s.(pid := slot, pageDir32 := PageEntry(slot));
      if !Loads(img, command) then Refused(mapped, -1)
      else Launched(Launch(mapped, slot, ctx), slot)
  }

  /** An `execute` that returns leaves processes, terminals and paging as they were; it is refused
      exactly when a check fails or no slot is free. */
  lemma RefusedLeavesSystem(s: Sys, img: Image, command: Command, ctx: Context)
    requires s.Shaped() && NONE <= s.curr < MAX_PCB && WellFormedDirectory(img)
    requires s.Here().countPcb != 0 ==> s.curr != NONE && SlotOrNone(s.pcbs[s.curr].pid)
    ensures var r := Execute(s, img, command, ctx);
            && (r.Refused? ==> r.sys == s.(pid := r.sys.pid))
            && (r.Refused? <==> !PassesChecks(img, command) || forall k :: 0 <= k < 6 ==> s.pcbs[k].active)
            && (r.Refused? ==>
                  r.status == if command != NullCommand && forall k :: 0 <= k < 6 ==> s.pcbs[k].active then 0 else -1)
            && (r.Launched? ==>
                  && 0 <= r.slot < 6 && !s.pcbs[r.slot].active && r.sys.curr == r.slot
                  && forall k :: 0 <= k < r.slot ==> s.pcbs[k].active)
  {
    if PassesChecks(img, command) {
      LoadNeverFails(img, command);
    }
  }

  /** How `halt` ends: in the process that launched the halted one, or, for a base shell, in a new
      shell or in nothing sensible if that cannot be started. */
  datatype Halted = Resumed(sys: Sys, ctx: Context) | Relaunched(outcome: Executed)

  /** Whether the running process can be halted: it is a real one, and so is its parent. */
  predicate Haltable(s: Sys) {
    && s.Shaped() && 0 <= s.curr < MAX_PCB && SlotOrNone(s.pcbs[s.curr].parentId)
    && (s.pcbs[s.curr].parentId == NONE ==> s.Here().countPcb == 1)
  }

  /** The running process gives up its slot. */
  function Leave(s: Sys): (r: Sys)
    requires s.Shaped() && 0 <= s.curr < MAX_PCB
    ensures r.Shaped()
  {
    s.(pcbs := s.pcbs[s.curr := s.pcbs[s.curr].(active := false)],
    terminals := s.terminals[s.scheduled := s.Here().(countPcb := s.Here().countPcb - 1)])
  }

  function Return(s: Sys, parent: int): (r: Sys)
    requires s.Shaped() && 0 <= parent < MAX_PCB
    ensures r.Shaped()
  {
    s.(pageDir32 := PageEntry(parent), tssEsp0 := s.pcbs[parent].esp0, curr := parent)
  }

  function Halt(s: Sys, img: Image, ctx: Context): (r: Halted)
    requires Haltable(s) && WellFormedDirectory(img)
  {
    var parent := s.pcbs[s.curr].parentId;
    if parent == NONE then Relaunched(Execute(Leave(s), img, Named(SHELL), ctx))
    else Resumed(Return(Leave(s), parent), Return(Leave(s), parent).pcbs[parent].saved)
  }

  /** The first half of the scheduler: the running process is put away. */
  function Suspend(s: Sys, ctx: Context): (r: Sys)
    requires s.Shaped() && NONE <= s.curr < MAX_PCB && (s.pid != NONE ==> s.curr != NONE)
    ensures r.Shaped()
  {
    var put := s.(terminals := s.terminals[s.scheduled := s.Here().(pcbPtr := s.curr)]);
    if s.pid == NONE then put
    else put.(pcbs := s.pcbs[s.curr := s.pcbs[s.curr].(saved := ctx, tssEsp0 := s.tssEsp0)])
  }

  /** The scheduler moves on to the next terminal. */
  function Rotate(s: Sys): (r: Sys)
    requires s.Shaped()
    ensures r.Shaped()
  {
    var t := Next(s.scheduled);
    s.(scheduled := t, curr := if s.terminals[t].pcbPtr != NONE then s.terminals[t].pcbPtr else s.curr)
  }

  /** The second half: the saved process of the terminal goes on. */
  function Resume(s: Sys): (r: Sys)
    requires s.Shaped() && 0 <= s.Here().pcbPtr < MAX_PCB
    ensures r.Shaped()
  {
    var k := s.Here().pcbPtr;
    s.(pageDir32 := PageEntry(s.pcbs[k].pid), curr := k, tssEsp0 := s.pcbs[k].tssEsp0)
  }

  datatype Ticked = Switched(sys: Sys, ctx: Context) | Started(outcome: Executed)

  predicate Tickable(s: Sys) {
    && s.Shaped() && NONE <= s.curr < MAX_PCB && (s.pid != NONE ==> s.curr != NONE)
    && var next := s.terminals[Next(s.scheduled)];
    && SlotOrNone(next.pcbPtr) && (next.countPcb != 0 ==> next.pcbPtr != NONE)
  }

  function Tick(s: Sys, img: Image, ctx: Context): (r: Ticked)
    requires Tickable(s) && WellFormedDirectory(img)
  {
    var next := Rotate(Suspend(s, ctx));
    if next.Here().countPcb == 0 then Started(Execute(next, img, Named(SHELL), ctx))
    else Switched(Resume(next), next.pcbs[next.Here().pcbPtr].saved)
  }
}
