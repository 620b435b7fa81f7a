/** The read-only block file system: an image of directory entries, inodes and 4096-byte blocks, and
    the flat file each inode stands for. */
module FileSystem {
  import opened Machine

  const BLOCK_SIZE := 4096
  const MAX_BLOCKS := 1023

  datatype Dentry = Dentry(name: seq<char>, fileType: int, inodeId: int)

  datatype Inode = Inode(length: int, blocks: seq<int>)

  datatype Image = Image(entries: seq<Dentry>, inodes: seq<Inode>, data: seq<char>)

  /** How many of an inode's block numbers its file uses. */
  function BlocksUsed(length: int): int
    requires 0 <= length
  {
    (length + BLOCK_SIZE - 1) / BLOCK_SIZE
  }

  /** A look-up in the block table, allowed only up to the file's last block. */
  function BlockAt(inode: Inode, b: int): int
    requires 0 <= inode.length <= MAX_BLOCKS * BLOCK_SIZE && |inode.blocks| == MAX_BLOCKS
    requires 0 <= b < BlocksUsed(inode.length)
  {
    inode.blocks[b]
  }

  predicate SoundInode(inode: Inode, data: seq<char>) {
    && 0 <= inode.length <= MAX_BLOCKS * BLOCK_SIZE && |inode.blocks| == MAX_BLOCKS
    && forall b :: 0 <= b < BlocksUsed(inode.length) ==>
                     0 <= inode.blocks[b] && (inode.blocks[b] + 1) * BLOCK_SIZE <= |data|
  }

  predicate WellFormed(img: Image) {
    && 0 < |img.inodes| < INT_LIMIT
    && forall i :: 0 <= i < |img.inodes| ==> SoundInode(img.inodes[i], img.data)
  }

  /** The byte of the data area that holds byte `k` of a file. */
  function Address(inode: Inode, k: int): (a: int)
    requires 0 <= k < inode.length && |inode.blocks| == MAX_BLOCKS && inode.length <= MAX_BLOCKS * BLOCK_SIZE
  {
    inode.blocks[k / BLOCK_SIZE] * BLOCK_SIZE + k % BLOCK_SIZE
  }

  lemma AddressInRange(inode: Inode, data: seq<char>, k: int)
    requires SoundInode(inode, data) && 0 <= k < inode.length
    ensures 0 <= k / BLOCK_SIZE < BlocksUsed(inode.length)
    ensures 0 <= Address(inode, k) < |data|
  {
  }

  /** The file as a flat sequence of bytes: its blocks one after the other, cut to its length. */
  function Contents(inode: Inode, data: seq<char>): (file: seq<char>)
    requires SoundInode(inode, data)
    ensures |file| == inode.length
    ensures forall k :: 0 <= k < |file| ==> 0 <= Address(inode, k) < |data| && file[k] == data[Address(inode, k)]
  {
    seq(inode.length, k requires 0 <= k < inode.length =>
      (AddressInRange(inode, data, k); data[Address(inode, k)]))
  }

  function FileOf(img: Image, inode: int): (file: seq<char>)
    requires WellFormed(img) && 0 <= inode < |img.inodes|
    ensures |file| == img.inodes[inode].length
  {
    Contents(img.inodes[inode], img.data)
  }

  /** Within one block the bytes of a file lie together. */
  lemma BlockBytes(inode: Inode, data: seq<char>, b: nat, off: nat, n: nat)
    requires SoundInode(inode, data) && off + n <= BLOCK_SIZE && b * BLOCK_SIZE + off + n <= inode.length
    requires n > 0
    ensures b < BlocksUsed(inode.length)
    ensures var a := inode.blocks[b] * 4096 + off;
            var first := b * 4096 + off;
            && 0 <= a && a + n <= |data|
            && forall f :: first <= f < first + n ==> Contents(inode, data)[f] == data[a + (f - first)]
  {
    var a := inode.blocks[b] * BLOCK_SIZE + off;
    var file := Contents(inode, data);
    var first := b * BLOCK_SIZE + off;
    forall f | first <= f < first + n
      ensures file[f] == data[a + (f - first)]
    {
      assert f / BLOCK_SIZE == b && f % BLOCK_SIZE == off + (f - first);
    }
  }

  /** The first `n` blocks of a file one after the other. */
  function Blocks(inode: Inode, data: seq<char>, n: nat): (s: seq<char>)
    requires SoundInode(inode, data) && n <= BlocksUsed(inode.length)
    ensures |s| == n * BLOCK_SIZE
  {
    if n == 0 then []
    else
      var a := inode.blocks[n - 1] * BLOCK_SIZE;
      Blocks(inode, data, n - 1) + data[a..a + BLOCK_SIZE]
  }

  lemma {:induction false} BlocksAt(inode: Inode, data: seq<char>, n: nat, k: nat)
    requires SoundInode(inode, data) && n <= BlocksUsed(inode.length) && k < n * BLOCK_SIZE && k < inode.length
    ensures Blocks(inode, data, n)[k] == Contents(inode, data)[k]
  {
    if n == 0 {
    } else if k < (n - 1) * BLOCK_SIZE {
      BlocksAt(inode, data, n - 1, k);
    } else {
      assert k / BLOCK_SIZE == n - 1 && k % BLOCK_SIZE == k - (n - 1) * BLOCK_SIZE;
    }
  }

  /** A file is its blocks one after the other, cut to its length. */
  lemma ContentsAreBlocks(inode: Inode, data: seq<char>)
    requires SoundInode(inode, data)
    ensures var n := BlocksUsed(inode.length);
            inode.length <= |Blocks(inode, data, n)| < inode.length + BLOCK_SIZE &&
            Contents(inode, data) == Blocks(inode, data, n)[..inode.length]
  {
    var n := BlocksUsed(inode.length);
    forall k | 0 <= k < inode.length
      ensures Blocks(inode, data, n)[k] == Contents(inode, data)[k]
    {
      BlocksAt(inode, data, n, k);
    }
  }

  /** How many bytes a read of `length` bytes at `offset` yields. */
  function ReadCount(fileLength: int, offset: int, length: int): (n: int)
    requires 0 <= fileLength && 0 <= offset && 0 <= length
    ensures 0 <= n <= length && (n > 0 ==> offset + n <= fileLength)
    ensures n < length ==> fileLength <= offset + n
  {
    if offset >= fileLength then 0
    else if offset + length > fileLength then fileLength - offset
    else length
  }

  /** `memcpy` from the data area into a buffer. */
  method CopyOut(data: seq<char>, from: int, buf: array<char>, at: nat, n: nat)
    requires 0 <= from && from + n <= |data| && at + n <= buf.Length
    modifies buf
    ensures forall k :: 0 <= k < buf.Length ==>
                          buf[k] == if at <= k < at + n then data[from + (k - at)] else old(buf[k])
  {
    var i := 0;
    while i < n
      invariant 0 <= i <= n
      invariant forall k :: 0 <= k < buf.Length ==>
                              buf[k] == if at <= k < at + i then data[from + (k - at)] else old(buf[k])
    {
      buf[at + i] := data[from + i];
      i := i + 1;
    }
  }

  /** The buffer once `done` bytes of the file from `offset` on have been put at `at`, and nothing else changed. */
  predicate Filled(buf: seq<char>, before: seq<char>, at: nat, file: seq<char>, offset: int, done: int) {
    && 0 <= offset && 0 <= done && offset + done <= |file|
    && |buf| == |before| && at + done <= |buf|
    && forall k :: 0 <= k < |buf| ==>
                     buf[k] == if at <= k < at + done then file[offset + (k - at)] else before[k]
  }

  /** The filled part of the buffer as one slice of the file. */
  lemma FilledSlice(buf: seq<char>, before: seq<char>, at: nat, file: seq<char>, offset: int, done: int)
    requires Filled(buf, before, at, file, offset, done)
    ensures buf == before[..at] + file[offset..offset + done] + before[at + done..]
  {
  }

  /** Copies the next `n` bytes, which lie in block `block` from byte `byte` on. */
  method CopyPart(img: Image, inode: int, block: nat, byte: nat, n: nat,
                  buf: array<char>, at: nat, ghost before: seq<char>, ghost offset: int, done: nat)
    requires WellFormed(img) && 0 <= inode < |img.inodes|
    requires Filled(buf[..], before, at, FileOf(img, inode), offset, done)
    requires block * BLOCK_SIZE + byte == offset + done && byte + n <= BLOCK_SIZE
    requires offset + done + n <= img.inodes[inode].length && at + done + n <= buf.Length
    requires offset + done < img.inodes[inode].length
    modifies buf
    ensures Filled(buf[..], before, at, FileOf(img, inode), offset, done + n)
  {
    AddressInRange(img.inodes[inode], img.data, offset + done);
    var current := BlockAt(img.inodes[inode], block);
    if n > 0 {
      BlockBytes(img.inodes[inode], img.data, block, byte, n);
    }
    CopyOut(img.data, current * BLOCK_SIZE + byte, buf, at + done, n);
  }

  /** The copying part of `read_data`: block by block, `n` bytes that the file is known to have. */
  method CopyRange(img: Image, inode: int, offset: int, buf: array<char>, at: nat, n: nat)
    requires WellFormed(img) && 0 <= inode < |img.inodes| && 0 <= offset < img.inodes[inode].length
    requires offset + n <= img.inodes[inode].length && at + n <= buf.Length
    modifies buf
    ensures Filled(buf[..], old(buf[..]), at, FileOf(img, inode), offset, n)
  {
    ghost var before := buf[..];
    var block := offset / BLOCK_SIZE;
    var byte := offset % BLOCK_SIZE;
    if n <= BLOCK_SIZE - byte {
      CopyPart(img, inode, block, byte, n, buf, at, before, offset, 0);
      return;
    }
    var left, done := n - (BLOCK_SIZE - byte), BLOCK_SIZE - byte;
    CopyPart(img, inode, block, byte, done, buf, at, before, offset, 0);
    block := block + 1;
    while left > BLOCK_SIZE
      invariant 0 < left && 0 < done && done + left == n
      invariant offset + done == block * BLOCK_SIZE
      invariant Filled(buf[..], before, at, FileOf(img, inode), offset, done)
    {
      CopyPart(img, inode, block, 0, BLOCK_SIZE, buf, at, before, offset, done);
      left := left - BLOCK_SIZE;
      done := done + BLOCK_SIZE;
      block := block + 1;
    }
    CopyPart(img, inode, block, 0, left, buf, at, before, offset, done);
  }

  /** `read_data`: a read of the flat file, with nothing else in the buffer changed. */
  method ReadData(img: Image, inode: int, offset: int, buf: array?<char>, at: nat, length: int)
    returns (n: int)
    requires WellFormed(img) && 0 <= inode < UINT && 0 <= offset && 0 <= length && offset + length < UINT
    requires inode < |img.inodes| && buf != null ==>
               at + ReadCount(img.inodes[inode].length, offset, length) <= buf.Length
    modifies buf
    ensures inode >= |img.inodes| || buf == null ==> n == -1
    ensures inode < |img.inodes| && buf != null ==> n == ReadCount(img.inodes[inode].length, offset, length)
    ensures n > 0 ==> Filled(buf[..], old(buf[..]), at, FileOf(img, inode), offset, n)
    ensures buf != null && n <= 0 ==> buf[..] == old(buf[..])
  {
    if inode > |img.inodes| - 1 || buf == null {
      return -1;
    }
    var fileLength := img.inodes[inode].length;
    if offset >= fileLength {
      return 0;
    }
    n := length;
    if offset + n > fileLength {
      n := fileLength - offset;
    }
    CopyRange(img, inode, offset, buf, at, n);
  }
}
