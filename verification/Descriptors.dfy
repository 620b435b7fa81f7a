/** The descriptor table of a process, updated in place by its system calls. */
module Descriptors {
  import opened FileSystem
  import opened Directory
  import opened Machine
  import opened Options
  import opened DescriptorSpec

  const CAT_BUFFER := 1024
  const LS_BUFFER := 33

  class Process {
    const files: array<FileObject>
    const img: Image

    ghost predicate Valid()
      reads files
    {
      Usable(img) && SoundTable(img, files[..])
    }

    /** `create_pcb`: every descriptor blank, then standard input and output. */
    constructor (img: Image)
      requires Usable(img)
      ensures Valid() && this.img == img && files[..] == NewTable()
    {
      this.img := img;
      files := new FileObject[MAX_FILE_NUM](_ => EMPTY);
      new;
      files[0] := FileObject(StdinOps, 0, 0, 1);
      files[1] := FileObject(StdoutOps, 0, 0, 1);
      assert files[..] == NewTable();
    }

    /** `open`. */
    method Open(name: Option<seq<char>>) returns (status: int)
      requires Valid() && (name.Some? ==> Readable(name.value, FILE_NAME_SIZE))
      modifies files
      ensures Valid()
      ensures Outcome(files[..], status) == DescriptorSpec.Open(img, old(files[..]), name)
    {
      DoKeepsSound(img, files[..], OpenCall(name));
      var fd := 0;
      while fd < MAX_FILE_NUM
        invariant 0 <= fd < MAX_FILE_NUM
        invariant FreeFrom(files[..], 0) == FreeFrom(files[..], fd)
        decreases MAX_FILE_NUM - fd
      {
        if fd == MAX_FILE_NUM - 1 && files[fd].flag == 1 {
          return -1;
        }
        if files[fd].flag == 0 {
          break;
        }
        fd := fd + 1;
      }
      if name.None? {
        return -1;
      }
      var entry := ReadDentryByName(img, name.value);
      if entry.None? {
        return -1;
      }
      var kind := entry.value.fileType;
      if kind < RTC_TYPE || kind > FILE_TYPE {
        return -1;
      }
      var inode := if kind == FILE_TYPE then entry.value.inodeId else 0;
      files[fd] := files[fd].(inode := inode, position := 0, flag := 1);
      if kind == RTC_TYPE {
        files[fd] := files[fd].(ops := RtcOps, inode := -1);
      } else if kind == DIR_TYPE {
        files[fd] := files[fd].(ops := DirOps);
      } else {
        files[fd] := files[fd].(ops := FileOps);
      }
      assert files[..] == old(files[..])[fd := Opened(entry.value)];
      return fd;
    }

    /** `close`. */
    method Close(fd: int) returns (status: int)
      requires Valid()
      modifies files
      ensures Valid()
      ensures Outcome(files[..], status) == DescriptorSpec.Close(old(files[..]), fd)
    {
      DoKeepsSound(img, files[..], CloseCall(fd));
      if fd == 0 || fd == 1 {
        return -1;
      }
      if fd < MAX_FILE_NUM && fd >= NUM_IO {
        if files[fd].flag == 0 {
          return -1;
        }
        files[fd] := FileObject(FailOps, 0, 0, 0);
        assert files[..] == old(files[..])[fd := FileObject(FailOps, 0, 0, 0)];
        return 0;
      } else {
        return -1;
      }
    }

    /** `file_read`. */
    method FileRead(fd: int, buf: array<char>, nbytes: int) returns (status: int)
      requires Valid() && NUM_IO <= fd < MAX_FILE_NUM && files[fd].flag == 1 && files[fd].ops == FileOps
      requires 0 <= nbytes <= buf.Length && nbytes < INT_LIMIT
      modifies files, buf
      ensures Outcome(files[..], status) == DescriptorSpec.Read(img, old(files[..]), fd, nbytes)
      ensures var piece := Piece(img, old(files[fd].inode), old(files[fd].position), nbytes);
              status >= 0 ==> status == |piece| && buf[..status] == piece
      ensures forall k :: (if status > 0 then status else 0) <= k < buf.Length ==> buf[k] == old(buf[k])
    {
      var inode, offset := files[fd].inode, files[fd].position;
      var n := ReadData(img, inode, offset, buf, 0, nbytes);
      if n < 0 {
        return -1;
      }
      if n > 0 {
        FilledSlice(buf[..], old(buf[..]), 0, FileOf(img, inode), offset, n);
      }
      files[fd] := files[fd].(position := files[fd].position + n);
      assert files[..] == old(files[..])[fd := files[fd]];
      return n;
    }

    /** `dir_read`: a whole name field goes to the buffer. */
    method DirectoryRead(fd: int, buf: array<char>, nbytes: int) returns (status: int)
      requires Valid() && NUM_IO <= fd < MAX_FILE_NUM && files[fd].flag == 1 && files[fd].ops == DirOps
      requires 0 <= nbytes && buf.Length >= FILE_NAME_SIZE
      modifies files, buf
      ensures Outcome(files[..], status) == DescriptorSpec.Read(img, old(files[..]), fd, nbytes)
      ensures match DirRead(img, old(files[fd].position), nbytes).name
              case Some(name) => buf[..] == name + old(buf[FILE_NAME_SIZE..])
              case None => buf[..] == old(buf[..])
    {
      var index := files[fd].position;
      if index > |img.entries| - 1 {
        assert files[..] == old(files[..])[fd := files[fd]];
        return 0;
      }
      var name := img.entries[index].name;
      var i := 0;
      while i < FILE_NAME_SIZE
        invariant 0 <= i <= FILE_NAME_SIZE
        invariant forall k :: 0 <= k < buf.Length ==> buf[k] == if k < i then name[k] else old(buf[k])
        modifies buf
      {
        buf[i] := name[i];
        i := i + 1;
      }
      files[fd] := files[fd].(position := index + 1);
      assert files[..] == old(files[..])[fd := files[fd]];
      assert buf[..] == name + old(buf[FILE_NAME_SIZE..]);
      if files[fd].position < MAX_ENTRIES {
        return nbytes;
      }
      return 0;
    }

    /** `rtc_intr_handler`, as far as it concerns this process. */
    method RtcInterrupt()
      requires Valid()
      modifies files
      ensures Valid() && files[..] == DescriptorSpec.RtcInterrupt(old(files[..]))
    {
      DoKeepsSound(img, files[..], RtcCall);
      var fd := 0;
      while fd < MAX_FILE_NUM
        invariant 0 <= fd <= MAX_FILE_NUM
        invariant files[..] == old(files[..])
        invariant RtcFrom(files[..], 0) == RtcFrom(files[..], fd)
      {
        if files[fd].inode == -1 && files[fd].flag == 1 {
          files[fd] := files[fd].(position := files[fd].position + 1);
          assert files[..] == old(files[..])[fd := files[fd]];
          return;
        }
        fd := fd + 1;
      }
    }

    /** `read` of anything but standard input; a buffer is big enough for what a file or a directory puts
        there. An RTC read is entered here once its wait is over. */
    method Read(fd: int, buf: array?<char>, nbytes: int) returns (status: int)
      requires Valid() && fd != 0 && nbytes < INT_LIMIT
      requires buf != null && 0 <= fd < MAX_FILE_NUM && files[fd].ops == FileOps ==> nbytes <= buf.Length
      requires buf != null && 0 <= fd < MAX_FILE_NUM && files[fd].ops == DirOps ==> FILE_NAME_SIZE <= buf.Length
      modifies files, buf
      ensures Valid()
      ensures buf == null ==> status == -1 && files[..] == old(files[..])
      ensures buf != null ==> Outcome(files[..], status) == DescriptorSpec.Read(img, old(files[..]), fd, nbytes)
      ensures buf != null && nbytes >= 0 ==>
                |DeliveredBy(img, old(files[..]), ReadCall(fd, nbytes), fd)| <= buf.Length &&
                var piece := DeliveredBy(img, old(files[..]), ReadCall(fd, nbytes), fd);
                buf[..|piece|] == piece
      ensures buf != null && nbytes >= 0 && NUM_IO <= fd < MAX_FILE_NUM && old(files[fd].ops) == DirOps ==>
                match DirRead(img, old(files[fd].position), nbytes).name
                case Some(name) => |name| <= buf.Length && buf[..|name|] == name
                case None => true
    {
      if fd < 0 || fd >= MAX_FILE_NUM || buf == null || nbytes < 0 {
        return -1;
      }
      DoKeepsSound(img, files[..], ReadCall(fd, nbytes));
      if files[fd].flag == 0 {
        return -1;
      }
      match files[fd].ops {
        case FileOps => status := FileRead(fd, buf, nbytes);
        case DirOps => status := DirectoryRead(fd, buf, nbytes);
        case RtcOps =>
          files[fd] := files[fd].(position := 0);
          assert files[..] == old(files[..])[fd := files[fd]];
          status := 0;
        case _ => status := -1;
      }
    }

    /** The part of `halt` that gives the descriptors of the process up. */
    method GiveUp()
      requires Valid()
      modifies files
      ensures forall fd :: 0 <= fd < MAX_FILE_NUM ==> files[fd].flag == 0
      ensures forall fd :: NUM_IO <= fd < MAX_FILE_NUM ==> files[fd].inode == 0 && files[fd].position == 0
    {
      var i := NUM_IO;
      while i < MAX_FILE_NUM
        invariant NUM_IO <= i <= MAX_FILE_NUM && Valid()
        invariant forall fd :: NUM_IO <= fd < i ==> files[fd].flag == 0
      {
        if files[i].flag == 1 {
          var closed := Close(i);
        }
        i := i + 1;
      }
      assert forall fd :: NUM_IO <= fd < MAX_FILE_NUM ==> Sound(img, files[..][fd]);
      files[0] := files[0].(flag := 0);
      files[1] := files[1].(flag := 0);
    }
  }

  /** `rtc_intr_handler`: the interrupt counts for every active process. */
  method RtcIntrHandler(processes: seq<Process>, active: seq<bool>)
    requires |processes| == |active| && forall p :: 0 <= p < |processes| ==> processes[p].Valid()
    requires forall p, q :: 0 <= p < q < |processes| ==> processes[p].files != processes[q].files
    modifies set p <- processes :: p.files
    ensures forall p :: 0 <= p < |processes| ==> processes[p].Valid()
    ensures forall p :: 0 <= p < |processes| ==>
                          processes[p].files[..] ==
                          if active[p] then DescriptorSpec.RtcInterrupt(old(processes[p].files[..]))
                          else old(processes[p].files[..])
  {
    var pid := 0;
    while pid < |processes|
      invariant 0 <= pid <= |processes|
      invariant forall p :: 0 <= p < |processes| ==> processes[p].Valid()
      invariant forall p :: pid <= p < |processes| ==> processes[p].files[..] == old(processes[p].files[..])
      invariant forall p :: 0 <= p < pid ==>
                              processes[p].files[..] ==
                              if active[p] then DescriptorSpec.RtcInterrupt(old(processes[p].files[..]))
                              else old(processes[p].files[..])
    {
      if active[pid] {
        processes[pid].RtcInterrupt();
      }
      pid := pid + 1;
    }
  }

  /** How much is left to read of what is open. */
  function Unread(img: Image, f: FileObject): (n: int) {
    if f.ops == FileOps then if 0 <= f.inode < |img.inodes| then img.inodes[f.inode].length - f.position else 0
    else if f.ops == DirOps then |img.entries| - f.position
    else 0
  }

  lemma ReadUses(img: Image, t: Table, fd: int, nbytes: int)
    requires Usable(img) && SoundTable(img, t) && NUM_IO <= fd < MAX_FILE_NUM && t[fd].flag == 1
    requires Read(img, t, fd, nbytes).status > 0
    ensures 0 <= Unread(img, Read(img, t, fd, nbytes).table[fd]) < Unread(img, t[fd])
  {
  }

  /** The loop of `cat` on an open descriptor: it ends. Of a file it writes the rest once, of the RTC
      nothing, and a bad inode number stops it. */
  method Cat(p: Process, fd: int, buf: array<char>) returns (status: int, out: seq<char>)
    requires p.Valid() && NUM_IO <= fd < MAX_FILE_NUM && buf.Length == CAT_BUFFER && p.files[fd].flag == 1
    modifies p.files, buf
    ensures p.Valid()
    ensures OpenFile(p.img, old(p.files[fd])) ==>
              && status == 0 && out == FileOf(p.img, old(p.files[fd].inode))[old(p.files[fd].position)..]
              && p.files[fd].position == p.img.inodes[old(p.files[fd].inode)].length
    ensures old(p.files[fd].ops) == FileOps && !OpenFile(p.img, old(p.files[fd])) ==>
              status == 3 && out == "file read failed\n"
    ensures old(p.files[fd].ops) == RtcOps ==> status == 0 && out == ""
  {
    ghost var start := p.files[fd];
    out := [];
    while true
      invariant p.Valid() && p.files[fd].flag == 1 && p.files[fd].ops == start.ops
      invariant p.files[fd].inode == start.inode
      invariant OpenFile(p.img, start) ==> ReadUpTo(p.img, start, p.files[fd], out)
      invariant OpenFile(p.img, start) || start.ops == DirOps || out == []
      decreases Unread(p.img, p.files[fd])
    {
      ghost var t := p.files[..];
      var cnt := p.Read(fd, buf, CAT_BUFFER);
      ReadIsExact(p.img, t, fd, CAT_BUFFER);
      if cnt == 0 {
        break;
      }
      if cnt == -1 {
        return 3, out + "file read failed\n";
      }
      ReadUses(p.img, t, fd, CAT_BUFFER);
      if start.ops == FileOps {
        StepJoins(p.img, start, t, out, ReadCall(fd, CAT_BUFFER), fd);
      }
      out := out + buf[..cnt];
    }
    status := 0;
  }

  /** `cat` of a name. */
  method CatNamed(p: Process, name: Option<seq<char>>, buf: array<char>) returns (status: int, out: seq<char>)
    requires p.Valid() && buf.Length == 1024 && (name.Some? ==> Readable(name.value, FILE_NAME_SIZE))
    modifies p.files, buf
    ensures p.Valid()
    ensures name.None? || Lookup(p.img, name.value).None? || (forall fd :: 2 <= fd < 8 ==> old(p.files[fd].flag) == 1)
            ==> status == 2 && out == "file not found\n"
    ensures name.Some? && (exists fd :: 2 <= fd < 8 && old(p.files[fd].flag) == 0) ==>
              match Lookup(p.img, name.value)
              case None => true
              case Some(d) =>
                && (d.fileType == 2 && d.inodeId < |p.img.inodes| ==> status == 0 && out == FileOf(p.img, d.inodeId))
                && (d.fileType == 2 && d.inodeId >= |p.img.inodes| ==> status == 3 && out == "file read failed\n")
                && (d.fileType == 0 ==> status == 0 && out == "")
                && (!(0 <= d.fileType <= 2) ==> status == 2 && out == "file not found\n")
  {
    OpenIsExact(p.img, p.files[..], name);
    var fd := p.Open(name);
    if fd == -1 {
      return 2, "file not found\n";
    }
    status, out := Cat(p, fd, buf);
  }

  /** Names one to a row. */
  function Rows(names: seq<seq<char>>): seq<char> {
    if names == [] then [] else names[0] + "\n" + Rows(names[1..])
  }

  lemma RowsFirst(name: seq<char>, more: seq<seq<char>>)
    ensures Rows([]) == []
    ensures Rows([name] + more) == name + "\n" + Rows(more)
  {
    assert ([name] + more)[1..] == more;
  }

  /** One turn of the loop of `ls`: the next name as a row, or nothing to write. */
  method NextRow(p: Process, fd: int, buf: array<char>) returns (cnt: int, row: seq<char>)
    requires p.Valid() && NUM_IO <= fd < MAX_FILE_NUM && buf.Length == LS_BUFFER
    requires p.files[fd].flag == 1 && p.files[fd].ops == DirOps
    modifies p.files, buf
    ensures p.Valid() && p.files[fd].flag == 1 && p.files[fd].ops == DirOps
    ensures var listed := DirRead(p.img, old(p.files[fd].position), FILE_NAME_SIZE);
            && cnt == listed.count && p.files[fd].position == listed.position
            && (cnt != 0 ==> listed.name.Some? && row == listed.name.value + "\n")
  {
    cnt := p.Read(fd, buf, FILE_NAME_SIZE);
    row := [];
    if cnt != 0 {
      buf[cnt] := '\n';
      row := buf[..cnt + 1];
    }
  }

  /** The first name of a listing. */
  lemma ListingFirst(img: Image, position: nat)
    requires DirRead(img, position, FILE_NAME_SIZE).count != 0
    ensures var listed := DirRead(img, position, FILE_NAME_SIZE);
            && listed.name.Some? && position < |img.entries| && listed.position == position + 1
            && Rows(Listing(img, position, FILE_NAME_SIZE)) ==
               listed.name.value + "\n" + Rows(Listing(img, position + 1, FILE_NAME_SIZE))
  {
    RowsFirst(DirRead(img, position, FILE_NAME_SIZE).name.value, Listing(img, position + 1, FILE_NAME_SIZE));
  }

  /** The loop of `ls` on an open directory: it ends, and writes the listing from where the descriptor
      stood; from the start that is every name but the last of a full directory. */
  method Ls(p: Process, fd: int, buf: array<char>) returns (status: int, out: seq<char>)
    requires p.Valid() && NUM_IO <= fd < MAX_FILE_NUM && buf.Length == LS_BUFFER
    requires p.files[fd].flag == 1 && p.files[fd].ops == DirOps
    modifies p.files, buf
    ensures p.Valid() && status == 0
    ensures out == Rows(Listing(p.img, old(p.files[fd].position), FILE_NAME_SIZE))
    ensures old(p.files[fd].position) == 0 ==>
              out == Rows(if |p.img.entries| < 63 then Names(p.img.entries) else Names(p.img.entries)[..62])
  {
    ListingIsComplete(p.img, FILE_NAME_SIZE);
    ghost var goal := Rows(Listing(p.img, p.files[fd].position, FILE_NAME_SIZE));
    out := [];
    ghost var left := goal;
    while true
      invariant p.Valid() && p.files[fd].flag == 1 && p.files[fd].ops == DirOps
      invariant left == Rows(Listing(p.img, p.files[fd].position, FILE_NAME_SIZE)) && goal == out + left
      decreases |p.img.entries| - p.files[fd].position
    {
      ghost var at := p.files[fd].position;
      var cnt, row := NextRow(p, fd, buf);
      if cnt == 0 {
        break;
      }
      ListingFirst(p.img, at);
      left := Rows(Listing(p.img, at + 1, FILE_NAME_SIZE));
      assert out + (row + left) == (out + row) + left;
      out := out + row;
    }
    assert out + [] == out;
    status := 0;
  }

  /** The name `ls` lists. */
  const HERE: seq<char> := ['.', '\0']

  /** `ls`; the entry "." of the file system is a directory. */
  method LsHere(p: Process, buf: array<char>) returns (status: int, out: seq<char>)
    requires p.Valid() && buf.Length == LS_BUFFER
    requires Lookup(p.img, HERE).Some? ==> Lookup(p.img, HERE).value.fileType == DIR_TYPE
    modifies p.files, buf
    ensures p.Valid()
    ensures Lookup(p.img, HERE).None? || (forall fd :: 2 <= fd < 8 ==> old(p.files[fd].flag) == 1)
            ==> status == 2 && out == "directory open failed\n"
    ensures Lookup(p.img, HERE).Some? && (exists fd :: 2 <= fd < 8 && old(p.files[fd].flag) == 0) ==>
              && status == 0
              && out == Rows(if |p.img.entries| < 63 then Names(p.img.entries) else Names(p.img.entries)[..62])
  {
    OpenIsExact(p.img, p.files[..], Some(HERE));
    var fd := p.Open(Some(HERE));
    if fd == -1 {
      return 2, "directory open failed\n";
    }
    status, out := Ls(p, fd, buf);
  }
}
