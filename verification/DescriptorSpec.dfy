/** A process's file descriptors as values, and what each system call and RTC interrupt does to them. */
module DescriptorSpec {
  import opened FileSystem
  import opened Directory
  import opened Machine
  import opened Options

  const MAX_FILE_NUM := 8
  const NUM_IO := 2
  const RTC_TYPE := 0
  const DIR_TYPE := 1
  const FILE_TYPE := 2

  /** Which operation table a descriptor uses. */
  datatype Ops = NoOps | StdinOps | StdoutOps | RtcOps | DirOps | FileOps | FailOps

  datatype FileObject = FileObject(ops: Ops, inode: int, position: int, flag: int)

  const EMPTY := FileObject(NoOps, 0, 0, 0)

  type Table = seq<FileObject>

  /** The table of a new process. */
  function NewTable(): (t: Table)
    ensures |t| == MAX_FILE_NUM && forall fd :: 2 <= fd < 8 ==> t[fd].flag == 0
  {
    [FileObject(StdinOps, 0, 0, 1), FileObject(StdoutOps, 0, 0, 1), EMPTY, EMPTY, EMPTY, EMPTY, EMPTY, EMPTY]
  }

  /** The first descriptor from `from` on that is not in use, or the size of the table. */
  function FreeFrom(t: Table, from: nat): (fd: nat)
    requires from <= |t|
    ensures from <= fd <= |t|
    ensures forall i :: from <= i < fd ==> t[i].flag != 0
    ensures fd < |t| ==> t[fd].flag == 0
    decreases |t| - from
  {
    if from == |t| || t[from].flag == 0 then from else FreeFrom(t, from + 1)
  }

  /** What opening an entry stores. */
  function Opened(d: Dentry): FileObject {
    if d.fileType == FILE_TYPE then FileObject(FileOps, d.inodeId, 0, 1)
    else if d.fileType == DIR_TYPE then FileObject(DirOps, 0, 0, 1)
    else FileObject(RtcOps, -1, 0, 1)
  }

  function Openable(img: Image, name: Option<seq<char>>): Option<Dentry> {
    if name.None? then None
    else
      match Lookup(img, name.value)
      case None => None
      case Some(d) => if RTC_TYPE <= d.fileType <= FILE_TYPE then Some(d) else None
  }

  /** The result of a call: the table after it and what it returns. */
  datatype Outcome = Outcome(table: Table, status: int)

  function Open(img: Image, t: Table, name: Option<seq<char>>): (r: Outcome)
    requires |t| == MAX_FILE_NUM
    ensures |r.table| == MAX_FILE_NUM
  {
    var fd := FreeFrom(t, 0);
    var d := Openable(img, name);
    if fd == MAX_FILE_NUM || d.None? then Outcome(t, -1)
    else Outcome(t[fd := Opened(d.value)], fd)
  }

  function Close(t: Table, fd: int): (r: Outcome)
    requires |t| == MAX_FILE_NUM
    ensures |r.table| == MAX_FILE_NUM
  {
    if NUM_IO <= fd < MAX_FILE_NUM && t[fd].flag != 0
    then Outcome(t[fd := FileObject(FailOps, 0, 0, 0)], 0)
    else Outcome(t, -1)
  }

  /** What a read of a regular file at a position delivers; nothing if its inode number is bad. */
  function Piece(img: Image, inode: int, position: int, nbytes: int): (piece: seq<char>)
    requires WellFormed(img) && 0 <= position && 0 <= nbytes
  {
    if 0 <= inode < |img.inodes| then
      var n := ReadCount(img.inodes[inode].length, position, nbytes);
      if n == 0 then [] else FileOf(img, inode)[position..position + n]
    else []
  }

  /** `read` on a regular file, a directory or the RTC; an RTC read waits until there was an interrupt. */
  function Read(img: Image, t: Table, fd: int, nbytes: int): (r: Outcome)
    requires WellFormed(img) && |t| == MAX_FILE_NUM
    requires 0 <= fd < MAX_FILE_NUM && t[fd].flag != 0 ==> 0 <= t[fd].position
    ensures |r.table| == MAX_FILE_NUM
  {
    if !(0 <= fd < MAX_FILE_NUM) || nbytes < 0 || t[fd].flag == 0 then Outcome(t, -1)
    else
      match t[fd].ops
      case FileOps =>
        if 0 <= t[fd].inode < |img.inodes| then
          var n := ReadCount(img.inodes[t[fd].inode].length, t[fd].position, nbytes);
          Outcome(t[fd := t[fd].(position := t[fd].position + n)], n)
        else Outcome(t, -1)
      case DirOps =>
        var listed := DirRead(img, t[fd].position, nbytes);
        Outcome(t[fd := t[fd].(position := listed.position)], listed.count)
      case RtcOps => Outcome(t[fd := t[fd].(position := 0)], 0)
      case _ => Outcome(t, -1)
  }

  /** The first open descriptor from `from` on that the interrupt handler takes for the RTC. */
  function RtcFrom(t: Table, from: nat): (fd: nat)
    requires from <= |t|
    ensures from <= fd <= |t|
    ensures forall i :: from <= i < fd ==> !(t[i].inode == -1 && t[i].flag == 1)
    ensures fd < |t| ==> t[fd].inode == -1 && t[fd].flag == 1
    decreases |t| - from
  {
    if from == |t| || (t[from].inode == -1 && t[from].flag == 1) then from else RtcFrom(t, from + 1)
  }

  /** An RTC interrupt counts on the lowest RTC descriptor. */
  function RtcInterrupt(t: Table): (r: Table)
    ensures |r| == |t|
  {
    var fd := RtcFrom(t, 0);
    if fd == |t| then t else t[fd := t[fd].(position := t[fd].position + 1)]
  }

  datatype Call = OpenCall(name: Option<seq<char>>) | CloseCall(fd: int) | ReadCall(fd: int, nbytes: int) | RtcCall

  function Do(img: Image, t: Table, call: Call): (r: Outcome)
    requires WellFormed(img) && |t| == MAX_FILE_NUM
    requires forall fd :: 0 <= fd < |t| ==> 0 <= t[fd].position
    ensures |r.table| == MAX_FILE_NUM
  {
    match call
    case OpenCall(name) => Open(img, t, name)
    case CloseCall(fd) => Close(t, fd)
    case ReadCall(fd, nbytes) => Read(img, t, fd, nbytes)
    case RtcCall => Outcome(RtcInterrupt(t), 0)
  }

  /** No directory entry carries a negative inode number; the field is a 32-bit integer. */
  predicate NonNegativeIds(img: Image) {
    forall i :: 0 <= i < |img.entries| ==> 0 <= img.entries[i].inodeId < INT_LIMIT
  }

  /** What holds of every descriptor: closed ones are blank, an open one has inode -1 exactly when it
      is the RTC, and a file is never read past its end. */
  predicate Sound(img: Image, f: FileObject) {
    && 0 <= f.position
    && (f.flag == 0 || f.flag == 1)
    && (f.flag == 0 ==> f.inode == 0 && f.position == 0 && (f.ops == NoOps || f.ops == FailOps))
    && (f.flag == 1 ==> f.ops == RtcOps || f.ops == DirOps || f.ops == FileOps)
    && (f.flag == 1 ==> (f.inode == -1 <==> f.ops == RtcOps))
    && (f.flag == 1 && f.ops == FileOps ==>
          0 <= f.inode < INT_LIMIT && f.position <= if f.inode < |img.inodes| then img.inodes[f.inode].length else 0)
    && (f.flag == 1 && f.ops == DirOps ==> f.position <= |img.entries|)
  }

  predicate SoundTable(img: Image, t: Table) {
    && |t| == MAX_FILE_NUM
    && t[0] == FileObject(StdinOps, 0, 0, 1) && t[1] == FileObject(StdoutOps, 0, 0, 1)
    && forall fd :: NUM_IO <= fd < MAX_FILE_NUM ==> Sound(img, t[fd])
  }

  predicate Usable(img: Image) {
    WellFormedDirectory(img) && NonNegativeIds(img)
  }

  lemma DoKeepsSound(img: Image, t: Table, call: Call)
    requires Usable(img) && SoundTable(img, t)
    ensures SoundTable(img, Do(img, t, call).table)
  {
  }

  function Run(img: Image, t: Table, calls: seq<Call>): (r: Table)
    requires Usable(img) && SoundTable(img, t)
    ensures SoundTable(img, r)
    decreases |calls|
  {
    if calls == [] then t
    else
      var before := Run(img, t, calls[..|calls| - 1]);
      DoKeepsSound(img, before, calls[|calls| - 1]);
      Do(img, before, calls[|calls| - 1]).table
  }

  /** `open` succeeds exactly when a descriptor is free and the name is that of an RTC, directory or file
      entry; it takes the lowest free descriptor and stores there what the entry says. */
  lemma OpenIsExact(img: Image, t: Table, name: Option<seq<char>>)
    requires Usable(img) && SoundTable(img, t)
    ensures var r := Open(img, t, name);
            && (r.status == -1 <==>
                || name.None? || Lookup(img, name.value).None?
                || !(0 <= Lookup(img, name.value).value.fileType <= 2)
                || forall fd :: 2 <= fd < 8 ==> t[fd].flag == 1)
            && (r.status == -1 ==> r.table == t)
            && (r.status != -1 ==>
                  && 2 <= r.status < 8 && t[r.status].flag == 0
                  && (forall i :: 2 <= i < r.status ==> t[i].flag == 1)
                  && r.table == t[r.status :=
                                match Lookup(img, name.value).value.fileType
                                case 0 => FileObject(RtcOps, -1, 0, 1)
                                case 1 => FileObject(DirOps, 0, 0, 1)
                                case _ => FileObject(FileOps, Lookup(img, name.value).value.inodeId, 0, 1)])
  {
  }

  /** `close` gives exactly the open descriptors from 2 on free and touches no other; nothing can be
      read from a descriptor that is not open. */
  lemma CloseIsExact(img: Image, t: Table, fd: int, nbytes: int)
    requires Usable(img) && SoundTable(img, t)
    ensures var r := Close(t, fd);
            && r.status == (if 2 <= fd < 8 && t[fd].flag == 1 then 0 else -1)
            && (r.status == -1 ==> r.table == t)
            && (r.status == 0 ==>
                  && r.table == t[fd := r.table[fd]] && r.table[fd].flag == 0
                  && Read(img, r.table, fd, nbytes) == Outcome(r.table, -1))
  {
  }

  /** A `read` that fails changes nothing; it fails exactly for a bad descriptor, a negative count, a
      standard one, or a file whose inode number is bad. A file read moves the position by the count, and
      an RTC read clears the interrupts counted so far. */
  lemma ReadIsExact(img: Image, t: Table, fd: int, nbytes: int)
    requires Usable(img) && SoundTable(img, t)
    ensures var r := Read(img, t, fd, nbytes);
            && (r.status == -1 <==>
                || !(2 <= fd < 8) || nbytes < 0 || t[fd].flag == 0
                || (t[fd].ops == FileOps && t[fd].inode >= |img.inodes|))
            && (r.status == -1 ==> r.table == t)
            && (r.status != -1 ==>
                  var at := t[fd].position;
                  && 0 <= r.status <= nbytes && r.table == t[fd := t[fd].(position := r.table[fd].position)]
                  && (t[fd].ops == FileOps ==> r.table[fd].position == at + r.status)
                  && (t[fd].ops == DirOps ==> r.table[fd].position == if at < |img.entries| then at + 1 else at)
                  && (t[fd].ops == RtcOps ==> r.status == 0 && r.table[fd].position == 0))
  {
  }

  /** An RTC interrupt moves no file or directory position, and of the RTC descriptors only the lowest. */
  lemma InterruptIsExact(img: Image, t: Table)
    requires SoundTable(img, t)
    ensures forall fd :: 0 <= fd < MAX_FILE_NUM ==>
                           RtcInterrupt(t)[fd] ==
                           if t[fd].ops == RtcOps && forall i :: 0 <= i < fd ==> t[i].ops != RtcOps
                           then t[fd].(position := t[fd].position + 1) else t[fd]
  {
    var low := RtcFrom(t, 0);
    assert low < |t| ==> NUM_IO <= low;
    assert forall fd :: 0 <= fd < MAX_FILE_NUM && t[fd].ops == RtcOps ==> t[fd].flag == 1 && t[fd].inode == -1;
  }

  /** The bytes one call delivers on a descriptor. */
  function DeliveredBy(img: Image, t: Table, call: Call, fd: int): seq<char>
    requires Usable(img) && SoundTable(img, t)
  {
    if call.ReadCall? && call.fd == fd && NUM_IO <= fd < MAX_FILE_NUM && call.nbytes >= 0 && t[fd].ops == FileOps
    then Piece(img, t[fd].inode, t[fd].position, call.nbytes) else []
  }

  /** The bytes a run's reads deliver on one descriptor, in order. */
  function Delivered(img: Image, t: Table, calls: seq<Call>, fd: int): seq<char>
    requires Usable(img) && SoundTable(img, t)
    decreases |calls|
  {
    if calls == [] then []
    else
      var n := |calls| - 1;
      Delivered(img, t, calls[..n], fd) + DeliveredBy(img, Run(img, t, calls[..n]), calls[n], fd)
  }

  predicate NeverClosed(calls: seq<Call>, fd: int) {
    forall i :: 0 <= i < |calls| ==> calls[i] != CloseCall(fd)
  }

  /** Descriptor `f` is `start` moved on, and `out` is the file between the two positions. */
  predicate ReadUpTo(img: Image, start: FileObject, f: FileObject, out: seq<char>) {
    && WellFormed(img) && 0 <= start.inode < |img.inodes|
    && f == start.(position := f.position)
    && 0 <= start.position <= f.position <= img.inodes[start.inode].length
    && out == FileOf(img, start.inode)[start.position..f.position]
  }

  lemma StepIsConsecutive(img: Image, t: Table, call: Call, fd: int)
    requires Usable(img) && SoundTable(img, t) && NUM_IO <= fd < MAX_FILE_NUM && call != CloseCall(fd)
    requires t[fd].flag == 1 && t[fd].ops == FileOps && t[fd].inode < |img.inodes|
    ensures ReadUpTo(img, t[fd], Do(img, t, call).table[fd], DeliveredBy(img, t, call, fd))
  {
  }

  lemma ReadUpToJoins(img: Image, start: FileObject, mid: FileObject, f: FileObject, out: seq<char>, more: seq<char>)
    requires ReadUpTo(img, start, mid, out) && ReadUpTo(img, mid, f, more)
    ensures ReadUpTo(img, start, f, out + more)
  {
    var file := FileOf(img, start.inode);
    assert file[start.position..mid.position] + file[mid.position..f.position] == file[start.position..f.position];
  }

  predicate OpenFile(img: Image, f: FileObject) {
    f.flag == 1 && f.ops == FileOps && f.inode < |img.inodes|
  }

  lemma StepJoins(img: Image, start: FileObject, mid: Table, out: seq<char>, call: Call, fd: int)
    requires Usable(img) && SoundTable(img, mid) && NUM_IO <= fd < MAX_FILE_NUM && call != CloseCall(fd)
    requires OpenFile(img, start) && ReadUpTo(img, start, mid[fd], out)
    ensures ReadUpTo(img, start, Do(img, mid, call).table[fd], out + DeliveredBy(img, mid, call, fd))
  {
    StepIsConsecutive(img, mid, call, fd);
    ReadUpToJoins(img, start, mid[fd], Do(img, mid, call).table[fd], out, DeliveredBy(img, mid, call, fd));
  }

  /** Whatever else a process does, the pieces it reads from an open file are consecutive: together
      they are the file from where it stood to where it stands now, which is never past the end. */
  lemma {:induction false} ReadsAreConsecutive(img: Image, t: Table, calls: seq<Call>, fd: int)
    requires Usable(img) && SoundTable(img, t) && NUM_IO <= fd < MAX_FILE_NUM
    requires OpenFile(img, t[fd]) && NeverClosed(calls, fd)
    ensures ReadUpTo(img, t[fd], Run(img, t, calls)[fd], Delivered(img, t, calls, fd))
    decreases |calls|
  {
    if calls == [] {
    } else {
      var n := |calls| - 1;
      ReadsAreConsecutive(img, t, calls[..n], fd);
      StepJoins(img, t[fd], Run(img, t, calls[..n]), Delivered(img, t, calls[..n], fd), calls[n], fd);
    }
  }

  /** Over any run without a `close` of it, an open descriptor stays what it is but for its position. */
  lemma {:induction false} StaysOpen(img: Image, t: Table, calls: seq<Call>, fd: int)
    requires Usable(img) && SoundTable(img, t) && NUM_IO <= fd < MAX_FILE_NUM
    requires t[fd].flag == 1 && NeverClosed(calls, fd)
    ensures Run(img, t, calls)[fd] == t[fd].(position := Run(img, t, calls)[fd].position)
    decreases |calls|
  {
    if calls == [] {
    } else {
      var n := |calls| - 1;
      StaysOpen(img, t, calls[..n], fd);
      StepStaysOpen(img, Run(img, t, calls[..n]), calls[n], fd);
    }
  }

  lemma StepStaysOpen(img: Image, t: Table, call: Call, fd: int)
    requires Usable(img) && SoundTable(img, t) && NUM_IO <= fd < MAX_FILE_NUM
    requires t[fd].flag == 1 && call != CloseCall(fd)
    ensures Do(img, t, call).table[fd] == t[fd].(position := Do(img, t, call).table[fd].position)
  {
  }

  /** The `open` of an entry that succeeded, and the descriptor it returned. */
  predicate OpenedAt(img: Image, t: Table, name: seq<char>, d: Dentry, r: Outcome) {
    && Usable(img) && SoundTable(img, t) && Lookup(img, name) == Some(d)
    && r == Open(img, t, Some(name)) && r.status != -1
  }

  /** A file opened by its name is read from its start: whatever else the process does, what its reads
      deliver is the front of the file that the name's entry stands for. */
  lemma OpenedFileIsRead(img: Image, t: Table, name: seq<char>, d: Dentry, r: Outcome, calls: seq<Call>)
    requires OpenedAt(img, t, name, d, r) && d.fileType == 2 && d.inodeId < |img.inodes|
    requires NeverClosed(calls, r.status)
    ensures SoundTable(img, r.table) && 2 <= r.status < 8 && 0 <= d.inodeId
    ensures var position := Run(img, r.table, calls)[r.status].position;
            && 0 <= position <= |FileOf(img, d.inodeId)|
            && Delivered(img, r.table, calls, r.status) == FileOf(img, d.inodeId)[..position]
  {
    OpenIsExact(img, t, Some(name));
    DoKeepsSound(img, t, OpenCall(Some(name)));
    ReadsAreConsecutive(img, r.table, calls, r.status);
  }

  /** The name one call delivers on a directory's descriptor, if any. */
  function NameBy(img: Image, t: Table, call: Call, fd: int): seq<seq<char>>
    requires Usable(img) && SoundTable(img, t)
  {
    if call.ReadCall? && call.fd == fd && NUM_IO <= fd < MAX_FILE_NUM && call.nbytes >= 0 && t[fd].ops == DirOps
    then
      (match DirRead(img, t[fd].position, call.nbytes).name
       case Some(name) => [name]
       case None => [])
    else []
  }

  function NamesRead(img: Image, t: Table, calls: seq<Call>, fd: int): seq<seq<char>>
    requires Usable(img) && SoundTable(img, t)
    decreases |calls|
  {
    if calls == [] then []
    else
      var n := |calls| - 1;
      NamesRead(img, t, calls[..n], fd) + NameBy(img, Run(img, t, calls[..n]), calls[n], fd)
  }

  lemma StepListsNext(img: Image, t: Table, call: Call, fd: int)
    requires Usable(img) && SoundTable(img, t) && NUM_IO <= fd < MAX_FILE_NUM && call != CloseCall(fd)
    requires t[fd].flag == 1 && t[fd].ops == DirOps
    ensures var p, q := t[fd].position, Do(img, t, call).table[fd].position;
            && 0 <= p <= q <= |img.entries| && NameBy(img, t, call, fd) == Names(img.entries)[p..q]
  {
  }

  /** The names a run reads from an open directory are those between its positions. */
  lemma {:induction false} NamesAreConsecutive(img: Image, t: Table, calls: seq<Call>, fd: int)
    requires Usable(img) && SoundTable(img, t) && NUM_IO <= fd < MAX_FILE_NUM
    requires t[fd].flag == 1 && t[fd].ops == DirOps && NeverClosed(calls, fd)
    ensures var p, q := t[fd].position, Run(img, t, calls)[fd].position;
            && 0 <= p <= q <= |img.entries| && NamesRead(img, t, calls, fd) == Names(img.entries)[p..q]
    decreases |calls|
  {
    if calls == [] {
    } else {
      var n := |calls| - 1;
      var mid := Run(img, t, calls[..n]);
      NamesAreConsecutive(img, t, calls[..n], fd);
      StaysOpen(img, t, calls[..n], fd);
      StepListsNext(img, mid, calls[n], fd);
      SlicesJoin(Names(img.entries), t[fd].position, mid[fd].position, Run(img, t, calls)[fd].position);
    }
  }

  lemma SlicesJoin<T>(s: seq<T>, i: int, j: int, k: int)
    requires 0 <= i <= j <= k <= |s|
    ensures s[i..j] + s[j..k] == s[i..k]
  {
  }

  /** A directory opened by its name is listed from its first entry. */
  lemma OpenedDirectoryIsListed(img: Image, t: Table, name: seq<char>, d: Dentry, r: Outcome, calls: seq<Call>)
    requires OpenedAt(img, t, name, d, r) && d.fileType == 1 && NeverClosed(calls, r.status)
    ensures SoundTable(img, r.table) && 2 <= r.status < 8
    ensures var position := Run(img, r.table, calls)[r.status].position;
            && 0 <= position <= |img.entries|
            && NamesRead(img, r.table, calls, r.status) == Names(img.entries)[..position]
  {
    OpenIsExact(img, t, Some(name));
    DoKeepsSound(img, t, OpenCall(Some(name)));
    NamesAreConsecutive(img, r.table, calls, r.status);
  }

  /** An RTC opened by its name counts an interrupt, in any later run, exactly when no descriptor below
      it is an RTC's. */
  lemma OpenedRtcCounts(img: Image, t: Table, name: seq<char>, d: Dentry, r: Outcome, calls: seq<Call>)
    requires OpenedAt(img, t, name, d, r) && d.fileType == 0 && NeverClosed(calls, r.status)
    ensures SoundTable(img, r.table) && 2 <= r.status < 8
    ensures var now := Run(img, r.table, calls);
            && now[r.status].ops == RtcOps
            && RtcInterrupt(now)[r.status].position ==
               now[r.status].position + if forall i :: 0 <= i < r.status ==> now[i].ops != RtcOps then 1 else 0
  {
    OpenIsExact(img, t, Some(name));
    DoKeepsSound(img, t, OpenCall(Some(name)));
    StaysOpen(img, r.table, calls, r.status);
    InterruptIsExact(img, Run(img, r.table, calls));
  }
}
