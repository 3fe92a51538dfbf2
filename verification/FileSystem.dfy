/**
 The read-only file system (file_system.c): directory lookup, the block-walking
 read, the file_read protocol with its global last_round, and dir_read.
 */
module FileSystem {
  import opened Common
  import Slots

  const NAME := 32
  const BLOCK := 4096
  const BLOCKS_PER_INODE := 1023
  const CAPACITY := 4190208  // bytes in the blocks of one inode
  const DIR_ENTRIES := 63

  datatype Dentry = Dentry(name: seq<Byte>, fileType: int, inode: nat)
  datatype Inode = Inode(length: int, blocks: seq<int>)

  /** The disk image: boot block, inode blocks, data blocks. */
  datatype Disk = Disk(dirNum: int, entries: seq<Dentry>, inodes: seq<Inode>, data: seq<seq<Byte>>)

  /** Array sizes of the image, and counts that stay inside them. */
  ghost predicate Formatted(d: Disk) {
    && |d.entries| == DIR_ENTRIES && 0 <= d.dirNum <= DIR_ENTRIES
    && (forall i :: 0 <= i < DIR_ENTRIES ==> |d.entries[i].name| == NAME)
    && (forall i :: 0 <= i < |d.inodes| ==>
          |d.inodes[i].blocks| == BLOCKS_PER_INODE && 0 <= d.inodes[i].length <= BLOCKS_PER_INODE * 4096)
    && (forall b :: 0 <= b < |d.data| ==> |d.data[b]| == BLOCK)
  }

  // ------------------------------------------------------------------- names

  /** A directory entry's name: at most 32 bytes, the rest of the field is padding. */
  function NameOf(e: Dentry): seq<Byte> { UpTo(e.name, 0) }

  /** Names are compared on their first 32 bytes only. */
  function Clip(fname: seq<Byte>): seq<Byte> {
    if |fname| > NAME then fname[..NAME] else fname
  }

  /** The first entry from `from` on with this name; `dirNum` when there is none. */
  function Lookup(d: Disk, fname: seq<Byte>, from: nat): (i: nat)
    requires Formatted(d) && from <= d.dirNum
    ensures from <= i <= d.dirNum
    ensures i < d.dirNum ==> NameOf(d.entries[i]) == Clip(fname)
    ensures forall j :: from <= j < i ==> NameOf(d.entries[j]) != Clip(fname)
    decreases d.dirNum - from
  {
    if from == d.dirNum || NameOf(d.entries[from]) == Clip(fname) then from else Lookup(d, fname, from + 1)
  }

  // ---------------------------------------------------------------- file data

  /** Byte `k` of file `ino` lies in a block the image has. */
  predicate HasByte(d: Disk, ino: int, k: nat)
    requires 0 <= ino < |d.inodes|
  {
    var b := k / 4096;
    b < |d.inodes[ino].blocks| && 0 <= d.inodes[ino].blocks[b] < |d.data|
    && |d.data[d.inodes[ino].blocks[b]]| == BLOCK
  }

  function FileByte(d: Disk, ino: int, k: nat): Byte
    requires 0 <= ino < |d.inodes| && HasByte(d, ino, k)
  {
    d.data[d.inodes[ino].blocks[k / 4096]][k % 4096]
  }

  /** How many of the `n` bytes from `off` on can be read before a bad block index. */
  function Readable(d: Disk, ino: int, off: nat, n: nat): (r: nat)
    requires 0 <= ino < |d.inodes|
    ensures r <= n && (r < n ==> !HasByte(d, ino, off + r))
    ensures forall k: nat :: off <= k < off + r ==> HasByte(d, ino, k)
    decreases n
  {
    if n == 0 || !HasByte(d, ino, off) then 0 else 1 + Readable(d, ino, off + 1, n - 1)
  }

  lemma {:induction false} ReadableIs(d: Disk, ino: int, off: nat, n: nat, i: nat)
    requires 0 <= ino < |d.inodes| && i <= n && (i == n || !HasByte(d, ino, off + i))
    requires forall p: nat :: off <= p < off + i ==> HasByte(d, ino, p)
    ensures Readable(d, ino, off, n) == i
    decreases n
  {
    if i == 0 {
    } else {
      ReadableIs(d, ino, off + 1, n - 1, i - 1);
    }
  }

  lemma {:induction false} ReadableAtLeast(d: Disk, ino: int, off: nat, n: nat, i: nat)
    requires 0 <= ino < |d.inodes| && i <= n && forall p: nat :: off <= p < off + i ==> HasByte(d, ino, p)
    ensures Readable(d, ino, off, n) >= i
    decreases n
  {
    if i == 0 {
    } else {
      ReadableAtLeast(d, ino, off + 1, n - 1, i - 1);
    }
  }

  predicate HasData(d: Disk, ino: int) {
    0 <= ino < |d.inodes| && d.inodes[ino].length != 0
  }

  /** How many bytes the loop of `read_data` is to copy, in 32-bit arithmetic: `n`, or up to the end of
      the file.  From behind the end, or when `off + n` wraps, that is more than any file holds. */
  function Wanted(d: Disk, ino: int, off: nat, n: nat): nat
    requires HasData(d, ino)
  {
    if (off + n) % 0x1_0000_0000 <= d.inodes[ino].length then n else (d.inodes[ino].length - off) % 0x1_0000_0000
  }

  /** How many it does copy. */
  function Copied(d: Disk, ino: int, off: nat, n: nat): nat {
    if !HasData(d, ino) then 0 else Readable(d, ino, off, Wanted(d, ino, off, n))
  }

  function ReadReturn(d: Disk, ino: int, off: nat, n: nat): int {
    if !HasData(d, ino) then -1
    else if Copied(d, ino, off, n) < Wanted(d, ino, off, n) then -1
    else if (off + n) % 0x1_0000_0000 <= d.inodes[ino].length then n else 0
  }

  /** The walk over block indices ends before it leaves the inode: it has all it wants, or it meets a
      bad index first.  What lies behind the inode is the next inode. */
  predicate InInode(d: Disk, ino: int, off: nat, n: nat) {
    HasData(d, ino) ==>
      Copied(d, ino, off, n) == Wanted(d, ino, off, n) || (off + Copied(d, ino, off, n)) / 4096 < |d.inodes[ino].blocks|
  }

  /** A request that starts inside the file and does not wrap. */
  predicate InFile(d: Disk, ino: int, off: nat, n: nat) {
    HasData(d, ino) ==> off <= d.inodes[ino].length && off + n < UINT32
  }

  lemma WantedInFile(d: Disk, ino: int, off: nat, n: nat)
    requires HasData(d, ino) && InFile(d, ino, off, n) && d.inodes[ino].length < UINT32
    ensures Wanted(d, ino, off, n) == if off + n <= d.inodes[ino].length then n else d.inodes[ino].length - off
    ensures ReadReturn(d, ino, off, n) ==
      if Copied(d, ino, off, n) < Wanted(d, ino, off, n) then -1 else if off + n <= d.inodes[ino].length then n else 0
  {
    NoWrap(off + n);
    if off + n > d.inodes[ino].length { NoWrap(d.inodes[ino].length - off); }
  }

  lemma NoWrap(a: nat)
    requires a < 0x1_0000_0000
    ensures a % 0x1_0000_0000 == a
  {
  }

  /** A request inside the file stays in the inode and in a buffer of `n` bytes. */
  lemma InFileStays(d: Disk, ino: int, off: nat, n: nat)
    requires Formatted(d) && InFile(d, ino, off, n)
    ensures InInode(d, ino, off, n) && Copied(d, ino, off, n) <= n
  {
    if HasData(d, ino) { WantedInFile(d, ino, off, n); }
  }

  /** Any other one wants more bytes than an inode has. */
  lemma OthersWantTooMuch(d: Disk, ino: int, off: nat, n: nat)
    requires Formatted(d) && HasData(d, ino) && off < UINT32 && n < UINT32 && !InFile(d, ino, off, n)
    ensures Wanted(d, ino, off, n) > 0 && off + Wanted(d, ino, off, n) > CAPACITY
    ensures Wanted(d, ino, off, n) == n ==> off + n >= CAPACITY
  {
    var len := d.inodes[ino].length;
    if off + n >= UINT32 { Wrapped(off + n); }
    if off > len { Wrapped(0x1_0000_0000 + 0x1_0000_0000 + len - off); }
  }

  /** Such a request stays in the inode exactly when a bad block index comes before the inode ends, and
      then it fails; it stays in a buffer of `n` bytes exactly when the bad index comes that soon. */
  lemma OtherReadsFail(d: Disk, ino: int, off: nat, n: nat)
    requires Formatted(d) && HasData(d, ino) && off < UINT32 && n < UINT32 && !InFile(d, ino, off, n)
    ensures InInode(d, ino, off, n) <==> exists k: nat :: off <= k < CAPACITY && !HasByte(d, ino, k)
    ensures Copied(d, ino, off, n) <= n <==> exists k: nat :: off <= k <= off + n && !HasByte(d, ino, k)
    ensures InInode(d, ino, off, n) ==> ReadReturn(d, ino, off, n) == -1
  {
    OthersWantTooMuch(d, ino, off, n);
    var end := off + Copied(d, ino, off, n);
    BehindInode(d, ino);
    assert !HasByte(d, ino, off + Wanted(d, ino, off, n) - 1);
    assert end < off + Wanted(d, ino, off, n);
    assert !HasByte(d, ino, end);
    assert end / 4096 < BLOCKS_PER_INODE <==> end < CAPACITY;
  }

  lemma BehindInode(d: Disk, ino: int)
    requires Formatted(d) && 0 <= ino < |d.inodes|
    ensures forall k: nat :: k >= CAPACITY ==> !HasByte(d, ino, k)
  {
  }

  /** In an inode whose block indices are all good, as those of `filesys_img` are, there is no bad one
      to stop the walk: it copies all the inode's blocks, unused entries included, and runs on. */
  lemma FullInodeRunsOut(d: Disk, ino: int, off: nat, n: nat)
    requires Formatted(d) && HasData(d, ino) && off < CAPACITY && n < UINT32 && !InFile(d, ino, off, n)
    requires forall b :: 0 <= b < BLOCKS_PER_INODE ==> 0 <= d.inodes[ino].blocks[b] < |d.data|
    ensures !InInode(d, ino, off, n) && Copied(d, ino, off, n) == CAPACITY - off
  {
    OtherReadsFail(d, ino, off, n);
    OthersWantTooMuch(d, ino, off, n);
    BehindInode(d, ino);
    forall k: nat | k < CAPACITY ensures HasByte(d, ino, k) {
      assert k / 4096 < BLOCKS_PER_INODE;
    }
    ReadableIs(d, ino, off, Wanted(d, ino, off, n), CAPACITY - off);
  }

  lemma Wrapped(a: nat)
    requires 0x1_0000_0000 <= a < 0x2_0000_0000
    ensures a % 0x1_0000_0000 == a - 0x1_0000_0000
  {
  }

  function LengthOf(d: Disk, ino: int): int {
    if 0 <= ino < |d.inodes| then d.inodes[ino].length else 0
  }

  /** The next block index the walk looks at is one of the inode's. */
  lemma WalkStays(d: Disk, ino: int, off: nat, want: nat, i: nat)
    requires 0 <= ino < |d.inodes| && i < want && forall p: nat :: off <= p < off + i ==> HasByte(d, ino, p)
    requires Readable(d, ino, off, want) == want || (off + Readable(d, ino, off, want)) / 4096 < |d.inodes[ino].blocks|
    ensures (off + i) / 4096 < |d.inodes[ino].blocks|
  {
    ReadableAtLeast(d, ino, off, want, i);
    if Readable(d, ino, off, want) > i { assert HasByte(d, ino, off + i); }
  }

  lemma InBlock(block: nat, at: nat)
    requires at < 4096
    ensures (block * 4096 + at) / 4096 == block && (block * 4096 + at) % 4096 == at
  {
  }

  /** The bytes of a file that lie in one of its blocks. */
  lemma BlockBytes(d: Disk, ino: int, block: nat, at: nat, from: nat, to: nat)
    requires 0 <= ino < |d.inodes| && at < 4096 && from == block * 4096 + at && from <= to <= (block + 1) * 4096
    requires block < |d.inodes[ino].blocks| && 0 <= d.inodes[ino].blocks[block] < |d.data|
    requires |d.data[d.inodes[ino].blocks[block]]| == BLOCK
    ensures forall p: nat :: from <= p < to ==>
      HasByte(d, ino, p) && FileByte(d, ino, p) == d.data[d.inodes[ino].blocks[block]][at + p - from]
  {
    forall p: nat | from <= p < to
      ensures HasByte(d, ino, p) && FileByte(d, ino, p) == d.data[d.inodes[ino].blocks[block]][at + p - from]
    {
      InBlock(block, at + p - from);
    }
  }

  /** All blocks of a non-empty file are there. */
  ghost predicate Intact(d: Disk, ino: int) {
    HasData(d, ino) && d.inodes[ino].length > 0
    && forall k: nat :: k < d.inodes[ino].length ==> HasByte(d, ino, k)
  }

  /** The flat file. */
  function Content(d: Disk, ino: int): (c: seq<Byte>)
    requires Intact(d, ino)
    ensures |c| == d.inodes[ino].length
    ensures forall k: nat :: k < |c| ==> c[k] == FileByte(d, ino, k)
  {
    seq(d.inodes[ino].length, (k: nat) requires Intact(d, ino) && k < d.inodes[ino].length => FileByte(d, ino, k))
  }

  /** On an intact file nothing is lost: everything wanted is copied. */
  lemma IntactReads(d: Disk, ino: int, off: nat, n: nat)
    requires Intact(d, ino) && InFile(d, ino, off, n) && d.inodes[ino].length < UINT32
    ensures var len := d.inodes[ino].length;
      && Copied(d, ino, off, n) == (if off + n <= len then n else len - off)
      && ReadReturn(d, ino, off, n) == (if off + n <= len then n else 0)
  {
    WantedInFile(d, ino, off, n);
  }

  /** The block walk delivers the slice of the flat file from `off` on, cut at the end of the file. */
  lemma ReadIsSlice(d: Disk, ino: int, off: nat, n: nat, got: seq<Byte>)
    requires Intact(d, ino) && InFile(d, ino, off, n) && d.inodes[ino].length < UINT32
    requires |got| == Copied(d, ino, off, n)
    requires forall k: nat :: k < |got| ==> got[k] == FileByte(d, ino, off + k)
    ensures var len := d.inodes[ino].length;
      got == Content(d, ino)[off..if off + n <= len then off + n else len]
  {
    IntactReads(d, ino, off, n);
  }

  /** The only ways to get -1: no such inode, an empty file, or a bad block index among the bytes wanted. */
  lemma ReadFailsExactly(d: Disk, ino: int, off: nat, n: nat)
    ensures ReadReturn(d, ino, off, n) == -1 <==>
      !HasData(d, ino) || exists k: nat :: off <= k < off + Wanted(d, ino, off, n) && !HasByte(d, ino, k)
  {
    if HasData(d, ino) {
      var r := Copied(d, ino, off, n);
      if r < Wanted(d, ino, off, n) {
        assert !HasByte(d, ino, off + r);
      }
    }
  }

  /** Block `b` of a file lies, whole and in order, in the data block its inode names for it. */
  lemma ContentByBlocks(d: Disk, ino: int, b: nat)
    requires Formatted(d) && Intact(d, ino) && b * 4096 < d.inodes[ino].length
    ensures var end := if (b + 1) * 4096 <= d.inodes[ino].length then 4096 else d.inodes[ino].length - b * 4096;
      && b < 1023 && 0 <= d.inodes[ino].blocks[b] < |d.data|
      && Content(d, ino)[b * 4096..b * 4096 + end] == d.data[d.inodes[ino].blocks[b]][..end]
  {
    var end := if (b + 1) * 4096 <= d.inodes[ino].length then 4096 else d.inodes[ino].length - b * 4096;
    InBlock(b, 0);
    assert HasByte(d, ino, b * 4096);
    forall k: nat | k < end
      ensures Content(d, ino)[b * 4096 + k] == d.data[d.inodes[ino].blocks[b]][k]
    {
      InBlock(b, k);
    }
  }

  // ------------------------------------------------------- file_read protocol

  /** One file_read of `n` bytes on an intact file of length `len`: value returned, position, last_round. */
  function Reply(len: nat, pos: nat, last: int, n: nat): (int, nat, int)
    requires pos <= len
  {
    var r := if pos + n <= len then n else 0;
    if r == 0 && last == 0 then (len - (pos + r), pos + r, 1)
    else if r == 0 && last == 1 then (0, pos + r, 0)
    else (r, pos + r, last)
  }

  /** What file_read makes of the value `got` that read_data returned, positions being 32-bit. */
  function Settled(len: int, pos: nat, last: int, got: int): (int, nat, int) {
    var pos' := (pos + got) % 0x1_0000_0000;
    if got == 0 then (if last == 0 then (len - pos', pos', 1) else (0, pos', 0)) else (got, pos', last)
  }

  /** A read that fails is answered with -1, an empty or missing file always; the flag stays, and the
      position goes back by one, from 0 to the top of the 32 bits. */
  lemma FailedReadReply(d: Disk, ino: int, pos: nat, last: int, n: nat)
    requires pos < UINT32 && ReadReturn(d, ino, pos, n) == -1
    ensures Settled(LengthOf(d, ino), pos, last, ReadReturn(d, ino, pos, n))
      == (-1, if pos == 0 then 0xFFFF_FFFF else pos - 1, last)
  {
    if pos > 0 { NoWrap(pos - 1); }
  }

  lemma EmptyFileReply(d: Disk, ino: int, pos: nat, last: int, n: nat)
    requires pos < UINT32 && (ino < 0 || ino >= |d.inodes| || d.inodes[ino].length == 0)
    ensures Settled(LengthOf(d, ino), pos, last, ReadReturn(d, ino, pos, n)).0 == -1
  {
    FailedReadReply(d, ino, pos, last, n);
  }

  /** On an intact file the two agree: no wrap, no failure. */
  lemma IntactReply(d: Disk, ino: int, off: nat, n: nat, last: int)
    requires Intact(d, ino) && InFile(d, ino, off, n) && d.inodes[ino].length < UINT32 && (last == 0 || last == 1)
    ensures Settled(d.inodes[ino].length, off, last, ReadReturn(d, ino, off, n))
      == Reply(d.inodes[ino].length, off, last, n)
  {
    IntactReads(d, ino, off, n);
    var pos' := off + ReadReturn(d, ino, off, n);
    NoWrap(pos');
    assert Settled(d.inodes[ino].length, off, last, pos' - off).1 == pos';
  }

  /** What a positive reply counts is the next piece of the file, at the front of the buffer.  Only a
      request for no bytes is answered with the length of the rest and nothing in the buffer. */
  lemma IntactSlice(d: Disk, ino: int, off: nat, n: nat, last: int, r: int, buf: seq<Byte>)
    requires Intact(d, ino) && InFile(d, ino, off, n) && d.inodes[ino].length < UINT32
    requires n > 0 && Copied(d, ino, off, n) <= |buf|
    requires forall k: nat :: k < Copied(d, ino, off, n) ==> buf[k] == FileByte(d, ino, off + k)
    requires r == Reply(d.inodes[ino].length, off, last, n).0 > 0
    ensures r <= |buf| && off + r <= d.inodes[ino].length && buf[..r] == Content(d, ino)[off..off + r]
  {
    IntactReads(d, ino, off, n);
    ReadIsSlice(d, ino, off, n, buf[..Copied(d, ino, off, n)]);
  }

  // --------------------------------------------------------------- dir_read

  /** `directory_index` after a dir_read at index `i`. */
  function NextIndex(d: Disk, i: nat): nat
    requires Formatted(d)
  {
    if i >= d.dirNum then 0 else i + 1
  }

  /** The name a dir_read at index `i` delivers; none at the end. */
  function Listed(d: Disk, i: nat): seq<Byte>
    requires Formatted(d)
  {
    if i >= d.dirNum then [] else NameOf(d.entries[i])
  }

  /** The names `calls` consecutive dir_reads deliver, from index `i` on. */
  function Listing(d: Disk, i: nat, calls: nat): seq<seq<Byte>>
    requires Formatted(d)
    decreases calls
  {
    if calls == 0 then [] else [Listed(d, i)] + Listing(d, NextIndex(d, i), calls - 1)
  }

  function IndexAfter(d: Disk, i: nat, calls: nat): nat
    requires Formatted(d)
    decreases calls
  {
    if calls == 0 then i else IndexAfter(d, NextIndex(d, i), calls - 1)
  }

  /** All names of the directory. */
  function Names(d: Disk): (r: seq<seq<Byte>>)
    requires Formatted(d)
    ensures |r| == d.dirNum && forall j :: 0 <= j < d.dirNum ==> r[j] == NameOf(d.entries[j])
  {
    seq(d.dirNum, (j: nat) requires j < d.dirNum && Formatted(d) => NameOf(d.entries[j]))
  }

  lemma FirstOf(names: seq<seq<Byte>>, i: nat, end: nat, more: seq<seq<Byte>>)
    requires i < end <= |names|
    ensures names[i..end] == [names[i]] + names[i + 1..end]
    ensures names[i..end] + more == [names[i]] + (names[i + 1..end] + more)
  {
  }

  lemma {:induction false} ListingFrom(d: Disk, i: nat)
    requires Formatted(d) && i <= d.dirNum
    ensures Listing(d, i, d.dirNum - i + 1) == Names(d)[i..d.dirNum] + [[]]
    ensures IndexAfter(d, i, d.dirNum - i + 1) == 0
    decreases d.dirNum - i
  {
    if i == d.dirNum {
      assert Listing(d, 0, 0) == [] && Names(d)[i..d.dirNum] == [];
    } else {
      ListingFrom(d, i + 1);
      FirstOf(Names(d), i, d.dirNum, [[]]);
      assert Listing(d, i, d.dirNum - i + 1) == [Names(d)[i]] + Listing(d, i + 1, d.dirNum - i);
    }
  }

  lemma {:induction false} ListingSplits(d: Disk, i: nat, a: nat, b: nat)
    requires Formatted(d)
    ensures Listing(d, i, a + b) == Listing(d, i, a) + Listing(d, IndexAfter(d, i, a), b)
    decreases a
  {
    if a == 0 {
    } else {
      ListingSplits(d, NextIndex(d, i), a - 1, b);
    }
  }

  /** From index 0 each round lists every name once, in order, then 0, and the rounds repeat. */
  lemma DirectoryRounds(d: Disk, more: nat)
    requires Formatted(d)
    ensures Listing(d, 0, d.dirNum + 1 + more) == Names(d) + [[]] + Listing(d, 0, more)
  {
    ListingFrom(d, 0);
    assert Names(d)[0..d.dirNum] == Names(d);
    ListingSplits(d, 0, d.dirNum + 1, more);
  }

  /** What a reader collects that calls dir_read until the first 0, the index standing at `i`. */
  function ListToZero(d: Disk, i: nat): seq<seq<Byte>>
    requires Formatted(d) && i <= d.dirNum
    decreases d.dirNum - i
  {
    if Listed(d, i) == [] then [] else [Listed(d, i)] + ListToZero(d, NextIndex(d, i))
  }

  /** And the index it leaves behind. */
  function IndexLeft(d: Disk, i: nat): nat
    requires Formatted(d) && i <= d.dirNum
    decreases d.dirNum - i
  {
    if Listed(d, i) == [] then NextIndex(d, i) else IndexLeft(d, NextIndex(d, i))
  }

  /** The first entry without a name; `dirNum` when all have one. */
  function Nameless(d: Disk, from: nat): (j: nat)
    requires Formatted(d) && from <= d.dirNum
    ensures from <= j <= d.dirNum && (j < d.dirNum ==> NameOf(d.entries[j]) == [])
    ensures forall k :: from <= k < j ==> NameOf(d.entries[k]) != []
    decreases d.dirNum - from
  {
    if from == d.dirNum || NameOf(d.entries[from]) == [] then from else Nameless(d, from + 1)
  }

  lemma {:induction false} ListToZeroIs(d: Disk, i: nat)
    requires Formatted(d) && i <= d.dirNum
    ensures ListToZero(d, i) == Names(d)[i..Nameless(d, i)]
    ensures IndexLeft(d, i) == NextIndex(d, Nameless(d, i))
    decreases d.dirNum - i
  {
    if Listed(d, i) == [] {
    } else {
      ListToZeroIs(d, i + 1);
      FirstOf(Names(d), i, Nameless(d, i + 1), []);
    }
  }

  /** `directory_index` is one global that neither open nor close resets.  A reader that opens the
      directory and reads to the first 0 gets all its names exactly when the index stands at 0 and no
      entry is nameless; it leaves the index at 0 exactly when it has met no nameless entry. */
  lemma AllNamesExactly(d: Disk, i: nat)
    requires Formatted(d) && i <= d.dirNum
    ensures ListToZero(d, i) == Names(d)[i..Nameless(d, i)]
    ensures ListToZero(d, i) == Names(d) <==> d.dirNum == 0 || (i == 0 && Nameless(d, 0) == d.dirNum)
    ensures IndexLeft(d, i) == 0 <==> Nameless(d, i) == d.dirNum
  {
    ListToZeroIs(d, i);
    assert Names(d)[0..d.dirNum] == Names(d);
    assert |Names(d)[i..Nameless(d, i)]| == Nameless(d, i) - i;
  }

  /** So a reader that gives up after `calls` names costs the next one exactly those. */
  lemma {:induction false} EarlyStopCostsNext(d: Disk, i: nat, calls: nat)
    requires Formatted(d) && i + calls <= d.dirNum
    ensures IndexAfter(d, i, calls) == i + calls
    ensures ListToZero(d, IndexAfter(d, i, calls)) == Names(d)[i + calls..Nameless(d, i + calls)]
    decreases calls
  {
    if calls == 0 {
      ListToZeroIs(d, i);
    } else {
      EarlyStopCostsNext(d, i + 1, calls - 1);
    }
  }

  /** Looking a listed name up finds the first entry that bears it: the entry itself when names are distinct. */
  lemma ListedNameIsFound(d: Disk, i: nat)
    requires Formatted(d) && i < d.dirNum
    ensures Lookup(d, Listed(d, i), 0) <= i
    ensures NameOf(d.entries[Lookup(d, Listed(d, i), 0)]) == NameOf(d.entries[i])
    ensures (forall j :: 0 <= j < i ==> NameOf(d.entries[j]) != NameOf(d.entries[i]))
      <==> Lookup(d, Listed(d, i), 0) == i
  {
    assert |NameOf(d.entries[i])| <= NAME;
  }

  // ------------------------------------------------------------- executables

  const ELF: seq<Byte> := [0x7f, 0x45, 0x4c, 0x46]

  /** What a buffer holds after read_data has been asked to fill it from `off` on: the bytes copied
      over what was there before. */
  function AfterRead(d: Disk, ino: int, off: nat, before: seq<Byte>): (r: seq<Byte>)
    requires Copied(d, ino, off, |before|) <= |before|
    ensures |r| == |before|
    ensures forall k: nat :: k < Copied(d, ino, off, |before|) ==> r[k] == FileByte(d, ino, off + k)
    ensures forall k :: Copied(d, ino, off, |before|) <= k < |before| ==> r[k] == before[k]
  {
    seq(|before|, (k: nat) requires k < |before| => ByteAfter(d, ino, off, before, k))
  }

  function ByteAfter(d: Disk, ino: int, off: nat, before: seq<Byte>, k: nat): Byte
    requires k < |before|
  {
    if k < Copied(d, ino, off, |before|) then FileByte(d, ino, off + k) else before[k]
  }

  /** On an intact file a buffer inside it is filled with its slice. */
  lemma IntactFills(d: Disk, ino: int, off: nat, before: seq<Byte>)
    requires Intact(d, ino) && off + |before| <= d.inodes[ino].length < UINT32
    ensures Copied(d, ino, off, |before|) <= |before|
    ensures AfterRead(d, ino, off, before) == Content(d, ino)[off..off + |before|]
  {
    IntactReads(d, ino, off, |before|);
    var r := AfterRead(d, ino, off, before);
    forall k: nat | k < |before| ensures r[k] == Content(d, ino)[off + k] {
      assert k < Copied(d, ino, off, |before|);
    }
  }

  /** What `execute` makes of the file of that name; `junk` is what its four-byte buffer held before. */
  function CommandFile(d: Disk, fname: seq<Byte>, junk: seq<Byte>): Slots.Lookup
    requires Formatted(d) && |junk| == 4
  {
    var i := Lookup(d, fname, 0);
    if i == d.dirNum then Slots.NotFound
    else
      InFileStays(d, d.entries[i].inode, 0, 4);
      if AfterRead(d, d.entries[i].inode, 0, junk) != ELF then Slots.NotExecutable else Slots.Loadable
  }

  /** The file's readable bytes are a proper beginning of the magic number: none of an empty or
      damaged file, for example. */
  ghost predicate CutMagic(d: Disk, ino: int)
    requires Copied(d, ino, 0, 4) <= 4
  {
    Copied(d, ino, 0, 4) < 4 && BeginsMagic(d, ino)
  }

  /** The readable ones of the first four bytes are those of the magic number. */
  ghost predicate BeginsMagic(d: Disk, ino: int)
    requires Copied(d, ino, 0, 4) <= 4
  {
    forall k: nat :: k < Copied(d, ino, 0, 4) ==> FileByte(d, ino, k) == ELF[k]
  }

  lemma LeftIsMagic(d: Disk, ino: int, junk: seq<Byte>)
    requires Copied(d, ino, 0, 4) <= 4 && |junk| == 4
    ensures AfterRead(d, ino, 0, junk) == ELF <==>
      BeginsMagic(d, ino) && forall k :: Copied(d, ino, 0, 4) <= k < 4 ==> junk[k] == ELF[k]
  {
    var left := AfterRead(d, ino, 0, junk);
    assert forall k: nat :: k < Copied(d, ino, 0, 4) ==> left[k] == FileByte(d, ino, 0 + k) == FileByte(d, ino, k);
    if BeginsMagic(d, ino) && forall k :: Copied(d, ino, 0, 4) <= k < 4 ==> junk[k] == ELF[k] {
      assert forall k :: 0 <= k < 4 ==> left[k] == ELF[k];
    }
  }

  /** The test looks at what is left in the buffer, also when read_data has failed.  It depends on the
      disk alone exactly when the readable bytes are not a proper beginning of the magic number. */
  lemma MagicTestIgnoresStackExactly(d: Disk, ino: int)
    requires Copied(d, ino, 0, 4) <= 4
    ensures (forall a: seq<Byte>, b: seq<Byte> :: |a| == 4 && |b| == 4 ==>
              (AfterRead(d, ino, 0, a) == ELF <==> AfterRead(d, ino, 0, b) == ELF)) <==> !CutMagic(d, ino)
    ensures Copied(d, ino, 0, 4) == 4 ==>
      forall a: seq<Byte> :: |a| == 4 ==> (AfterRead(d, ino, 0, a) == ELF <==> BeginsMagic(d, ino))
  {
    forall a: seq<Byte> | |a| == 4
      ensures AfterRead(d, ino, 0, a) == ELF <==>
        BeginsMagic(d, ino) && forall k :: Copied(d, ino, 0, 4) <= k < 4 ==> a[k] == ELF[k]
    {
      LeftIsMagic(d, ino, a);
    }
    if CutMagic(d, ino) {
      var zeros: seq<Byte> := [0, 0, 0, 0];
      assert zeros[3] != ELF[3];
      assert AfterRead(d, ino, 0, ELF) == ELF && AfterRead(d, ino, 0, zeros) != ELF;
    }
  }

  /** `execute` finds no file exactly when no entry has the name, compared on 32 bytes. */
  lemma NotFoundExactly(d: Disk, fname: seq<Byte>, junk: seq<Byte>)
    requires Formatted(d) && |junk| == 4
    ensures CommandFile(d, fname, junk) == Slots.NotFound <==>
      forall i :: 0 <= i < d.dirNum ==> UpTo(d.entries[i].name, 0) != (if |fname| > 32 then fname[..32] else fname)
  {
    var i := Lookup(d, fname, 0);
    assert forall j :: 0 <= j < d.dirNum ==> NameOf(d.entries[j]) == UpTo(d.entries[j].name, 0);
    assert i < d.dirNum ==> UpTo(d.entries[i].name, 0) == Clip(fname);
  }

  /** Of the entries with the name the first one counts.  When its first four bytes can be read, the
      file is loadable exactly when they are 7f 45 4c 46, whatever the buffer held before. */
  lemma LoadableExactly(d: Disk, fname: seq<Byte>, junk: seq<Byte>, i: nat)
    requires Formatted(d) && |junk| == 4 && i < d.dirNum
    requires UpTo(d.entries[i].name, 0) == if |fname| > 32 then fname[..32] else fname
    requires forall j :: 0 <= j < i ==> UpTo(d.entries[j].name, 0) != UpTo(d.entries[i].name, 0)
    ensures var file, ino := CommandFile(d, fname, junk), d.entries[i].inode;
      && file != Slots.NotFound
      && (Copied(d, ino, 0, 4) == 4 ==>
            (file == Slots.Loadable <==>
               && FileByte(d, ino, 0) == 0x7f && FileByte(d, ino, 1) == 0x45
               && FileByte(d, ino, 2) == 0x4c && FileByte(d, ino, 3) == 0x46))
      && (Intact(d, ino) && d.inodes[ino].length >= 4 ==>
            (file == Slots.Loadable <==> Content(d, ino)[0..4] == [0x7f, 0x45, 0x4c, 0x46]))
  {
    var ino := d.entries[i].inode;
    FirstNamed(d, fname, i);
    InFileStays(d, ino, 0, 4);
    LeftIsMagic(d, ino, junk);
    FourBytes(d, ino);
  }

  lemma FirstNamed(d: Disk, fname: seq<Byte>, i: nat)
    requires Formatted(d) && i < d.dirNum && NameOf(d.entries[i]) == Clip(fname)
    requires forall j :: 0 <= j < i ==> NameOf(d.entries[j]) != NameOf(d.entries[i])
    ensures Lookup(d, fname, 0) == i
  {
  }

  lemma FourBytes(d: Disk, ino: int)
    requires Formatted(d) && Copied(d, ino, 0, 4) <= 4
    ensures Copied(d, ino, 0, 4) == 4 ==>
      (BeginsMagic(d, ino) <==>
         && FileByte(d, ino, 0) == 0x7f && FileByte(d, ino, 1) == 0x45
         && FileByte(d, ino, 2) == 0x4c && FileByte(d, ino, 3) == 0x46)
    ensures Intact(d, ino) && d.inodes[ino].length >= 4 ==>
      Copied(d, ino, 0, 4) == 4 && (BeginsMagic(d, ino) <==> Content(d, ino)[0..4] == [0x7f, 0x45, 0x4c, 0x46])
  {
    if Copied(d, ino, 0, 4) == 4 {
      assert BeginsMagic(d, ino) ==> forall k: nat :: k < 4 ==> FileByte(d, ino, k) == ELF[k];
    }
    if Intact(d, ino) && d.inodes[ino].length >= 4 {
      IntactReads(d, ino, 0, 4);
      var four := Content(d, ino)[0..4];
      assert four == [four[0], four[1], four[2], four[3]];
    }
  }

  function LittleEndian(b: seq<Byte>): nat
    requires |b| == 4
  {
    b[0] as int + 0x100 * b[1] as int + 0x10000 * b[2] as int + 0x1000000 * b[3] as int
  }

  /** The entry point's bytes are the file's, the lowest first. */
  lemma LittleEndianBytes(b: seq<Byte>)
    requires |b| == 4
    ensures var e := LittleEndian(b);
      e % 0x100 == b[0] && e / 0x100 % 0x100 == b[1] && e / 0x1_0000 % 0x100 == b[2] && e / 0x100_0000 == b[3]
  {
    var e := LittleEndian(b);
    var b0: nat, b1: nat, b2: nat, b3: nat := b[0], b[1], b[2], b[3];
    DivModUnique(e, 0x100, b1 + 0x100 * b2 + 0x1_0000 * b3, b0);
    DivModUnique(b1 + 0x100 * b2 + 0x1_0000 * b3, 0x100, b2 + 0x100 * b3, b1);
    DivModUnique(e, 0x1_0000, b2 + 0x100 * b3, b0 + 0x100 * b1);
    DivModUnique(b2 + 0x100 * b3, 0x100, b3, b2);
    DivModUnique(e, 0x100_0000, b3, b0 + 0x100 * b1 + 0x1_0000 * b2);
  }
}
