/** The kernel's process control: the process table and the globals, updated in place. */
module Kernel {
  import opened FileSystem
  import opened Directory
  import opened Machine
  import opened Options
  import opened ProcessSpec
  import opened Terminals

  lemma ShellIsReadable()
    ensures Readable(SHELL, FILE_NAME_SIZE)
  {
    assert SHELL[|SHELL| - 1] == NUL;
  }

  /** The program is the whole file of the command, and the entry address its bytes 24 to 27. */
  predicate Loaded(img: Image, command: Command, program: seq<char>, entry: seq<char>)
    requires WellFormedDirectory(img)
  {
    && PassesChecks(img, command)
    && program == FileOf(img, Lookup(img, command.name).value.inodeId)
    && |program| >= 28 && entry == program[24..28]
  }

  class Kernel {
    const pcbs: array<Pcb>
    const terminals: array<Terminal>
    const img: Image
    var pid: int
    var curr: int
    var scheduled: int
    var tssEsp0: int
    var pageDir32: int

    ghost function State(): Sys
      reads this, pcbs, terminals
    {
      Sys(pcbs[..], terminals[..], pid, curr, scheduled, tssEsp0, pageDir32)
    }

    ghost predicate Valid()
      reads this, pcbs, terminals
    {
      WellFormedDirectory(img) && State().Shaped() && NONE <= curr < MAX_PCB
    }

    /** `determine_which_pcb_empty`. */
    method DetermineEmpty() returns (slot: int)
      requires Valid()
      ensures var k := EmptyFrom(pcbs[..], 0); slot == if k < MAX_PCB then k else NO_SLOT
    {
      var i := 0;
      while i < MAX_PCB
        invariant 0 <= i <= MAX_PCB
        invariant EmptyFrom(pcbs[..], 0) == EmptyFrom(pcbs[..], i)
      {
        if !pcbs[i].active {
          return i;
        }
        i := i + 1;
      }
      return NO_SLOT;
    }

    /** `set_up_paging`. */
    method SetUpPaging(slot: int)
      modifies this`pageDir32
      ensures pageDir32 == PageEntry(slot)
    {
      var entry := 0x1 + 0x80;
      if slot == 0 {
        entry := entry + 0x80_0000;
      }
      if slot == 1 {
        entry := entry + 0xC0_0000;
      }
      if slot == 2 {
        entry := entry + 0x100_0000;
      }
      if slot == 3 {
        entry := entry + 0x500_0000;
      }
      if slot == 4 {
        entry := entry + 0x900_0000;
      }
      if slot == 5 {
        entry := entry + 0xD00_0000;
      }
      entry := entry + 0x2;
      entry := entry + 0x4;
      pageDir32 := entry;
    }

    /** `create_pcb`. */
    method CreatePcb(slot: int)
      requires Valid() && 0 <= slot < MAX_PCB
      requires State().Here().countPcb != 0 ==> curr != NONE
      modifies pcbs, terminals
      ensures Valid() && State() == Create(old(State()), slot)
    {
      var parent := NONE;
      if terminals[scheduled].countPcb != 0 {
        parent := pcbs[curr].pid;
      }
      pcbs[slot] := pcbs[slot].(pid := slot, tssEsp0 := tssEsp0, tid := scheduled, active := true,
      esp0 := Esp0(slot), parentId := parent);
      terminals[scheduled] := terminals[scheduled].(countPcb := terminals[scheduled].countPcb + 1);
      assert pcbs[..] == old(pcbs[..])[slot := pcbs[slot]];
      assert terminals[..] == old(terminals[..])[scheduled := terminals[scheduled]];
    }

    /** A signed inode number as `read_data` takes it. */
    function Unsigned(n: int): (r: int)
      requires -INT_LIMIT <= n < INT_LIMIT
      ensures 0 <= r < UINT
      ensures r == n || (r >= INT_LIMIT && n < 0)
    {
      if n < 0 then n + UINT else n
    }

    /** The part of `execute` that looks the program up and checks it. */
    method Check(command: Command) returns (inode: Option<int>, entry: seq<char>)
      requires Valid() && (command.Named? ==> Readable(command.name, FILE_NAME_SIZE))
      ensures inode.Some? <==> PassesChecks(img, command)
      ensures inode.Some? ==>
                && inode.value == Lookup(img, command.name).value.inodeId
                && entry == FileOf(img, inode.value)[24..28]
    {
      if !command.Named? {
        return None, [];
      }
      var d := ReadDentryByName(img, command.name);
      if d.None? {
        return None, [];
      }
      var id := d.value.inodeId;
      var buf := new char[EXE_FILE_LEN];
      var n := ReadData(img, Unsigned(id), 0, buf, 0, EXE_FILE_LEN);
      if n != EXE_FILE_LEN {
        return None, [];
      }
      assert buf[..] == FileOf(img, id)[..EXE_FILE_LEN];
      var differ := Strncmp(buf[..], MAGIC, |MAGIC|);
      if differ != 0 {
        return None, [];
      }
      var eip := new char[TARGET_EIP_LENGTH];
      n := ReadData(img, Unsigned(id), ENTRY_POINT_START, eip, 0, TARGET_EIP_LENGTH);
      if n != TARGET_EIP_LENGTH {
        return None, [];
      }
      assert eip[..] == FileOf(img, id)[24..28];
      return Some(id), eip[..];
    }

    /** `execute`: either the new process runs, with the whole file as its program and entered at the
        address the file names, or the caller gets a status back. */
    method Execute(command: Command, ctx: Context)
      returns (launched: bool, status: int, program: seq<char>, entry: seq<char>)
      requires Valid() && (command.Named? ==> Readable(command.name, FILE_NAME_SIZE))
      requires State().Here().countPcb != 0 ==> curr != NONE && SlotOrNone(pcbs[curr].pid)
      modifies this`pid, this`curr, this`tssEsp0, this`pageDir32, pcbs, terminals
      ensures Valid()
      ensures var r := ProcessSpec.Execute(old(State()), img, command, ctx);
              && State() == r.sys && launched == r.Launched? && (r.Refused? ==> status == r.status)
      ensures launched ==> Loaded(img, command, program, entry)
    {
      launched, status, program, entry := false, -1, [], [];
      if command == NullCommand {
        return;
      }
      pid := DetermineEmpty();
      if pid == NO_SLOT {
        status := 0;
        return;
      }
      var inode, eip := Check(command);
      if inode.None? {
        return;
      }
      SetUpPaging(pid);
      var length := img.inodes[inode.value].length;
      var image := new char[length];
      var n := ReadData(img, Unsigned(inode.value), 0, image, 0, length);
      if length != n {
        return;
      }
      assert image[..] == FileOf(img, inode.value);
      Start(ctx);
      launched, program, entry := true, image[..], eip;
    }

    /** The end of `execute`: the process record, the caller's registers, the switch. */
    method Start(ctx: Context)
      requires Valid() && 0 <= pid < MAX_PCB
      requires State().Here().countPcb != 0 ==> curr != NONE && SlotOrNone(pcbs[curr].pid)
      modifies this`curr, this`tssEsp0, pcbs, terminals
      ensures Valid() && State() == Launch(old(State()), pid, ctx)
    {
      CreatePcb(pid);
      curr := pid;
      if pcbs[curr].parentId != NONE {
        var parent := pcbs[curr].parentId;
        ghost var made := pcbs[..];
        pcbs[parent] := pcbs[parent].(saved := ctx);
        assert pcbs[..] == made[parent := pcbs[parent]];
      }
      tssEsp0 := pcbs[curr].esp0;
    }

    /** `halt`: yields the registers the launcher goes on with, unless a base shell is replaced by a new
        one. */
    method Halt(ctx: Context) returns (resumed: Option<Context>, program: seq<char>, entry: seq<char>)
      requires Valid() && Haltable(State())
      requires pcbs[curr].parentId == NONE ==> PassesChecks(img, Named(SHELL))
      modifies this`pid, this`curr, this`tssEsp0, this`pageDir32, pcbs, terminals
      ensures Valid()
      ensures match ProcessSpec.Halt(old(State()), img, ctx)
              case Resumed(sys, saved) => State() == sys && resumed == Some(saved)
              case Relaunched(outcome) => State() == outcome.sys && resumed == None && outcome.Launched?
      ensures resumed == None ==> Loaded(img, Named("shell" + ['\0']), program, entry)
    {
      program, entry := [], [];
      terminals[scheduled] := terminals[scheduled].(countPcb := terminals[scheduled].countPcb - 1);
      assert terminals[..] == old(terminals[..])[scheduled := terminals[scheduled]];
      var parent := pcbs[curr].parentId;
      pcbs[curr] := pcbs[curr].(active := false);
      assert pcbs[..] == old(pcbs[..])[curr := pcbs[curr]];
      if parent == NONE {
        ShellIsReadable();
        LoadNeverFails(img, Named(SHELL));
        var launched, status;
        launched, status, program, entry := Execute(Named(SHELL), ctx);
        return None, program, entry;
      }
      SetUpPaging(parent);
      tssEsp0 := pcbs[parent].esp0;
      curr := parent;
      return Some(pcbs[parent].saved), [], [];
    }

    /** `scheduler`: yields the registers the next terminal's process goes on with, unless the terminal
        gets its first shell. */
    method Scheduler(ctx: Context) returns (resumed: Option<Context>, program: seq<char>, entry: seq<char>)
      requires Valid() && Tickable(State())
      modifies this`pid, this`curr, this`tssEsp0, this`pageDir32, this`scheduled, pcbs, terminals
      ensures Valid()
      ensures match Tick(old(State()), img, ctx)
              case Switched(sys, saved) => State() == sys && resumed == Some(saved)
              case Started(outcome) =>
                && State() == outcome.sys && resumed == None
                && (outcome.Launched? ==> Loaded(img, Named("shell" + ['\0']), program, entry))
    {
      program, entry := [], [];
      PutAway(ctx);
      scheduled := Next(scheduled);
      if terminals[scheduled].pcbPtr != NONE {
        curr := terminals[scheduled].pcbPtr;
      }
      if terminals[scheduled].countPcb == 0 {
        ShellIsReadable();
        var launched, status;
        launched, status, program, entry := Execute(Named(SHELL), ctx);
        return None, program, entry;
      }
      var k := terminals[scheduled].pcbPtr;
      SetUpPaging(pcbs[k].pid);
      curr := k;
      tssEsp0 := pcbs[k].tssEsp0;
      return Some(pcbs[k].saved), [], [];
    }

    method PutAway(ctx: Context)
      requires Valid() && (pid != NONE ==> curr != NONE)
      modifies pcbs, terminals
      ensures Valid() && State() == Suspend(old(State()), ctx)
    {
      terminals[scheduled] := terminals[scheduled].(pcbPtr := curr);
      assert terminals[..] == old(terminals[..])[scheduled := terminals[scheduled]];
      if pid != NONE {
        pcbs[curr] := pcbs[curr].(saved := ctx, tssEsp0 := tssEsp0);
        assert pcbs[..] == old(pcbs[..])[curr := pcbs[curr]];
      }
    }
  }
}
