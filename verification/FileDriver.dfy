/**
 file_system.c at work: the search and copy loops, and the globals `last_round`,
 `directory_index`, `curr_file_dentry` and `curr_dir_dentry`.
 */
module FileDriver {
  import opened Common
  import opened FileSystem
  import Slots

  lemma NulLater(s: seq<Byte>, n: nat)
    requires n <= |s| && forall i :: 0 <= i < n ==> s[i] != 0
    ensures |UpTo(s, 0)| >= n
  {
  }

  class Files {
    const disk: Disk
    var lastRound: int
    var directoryIndex: nat
    var currFileDentry: Dentry
    var currDirDentry: Dentry

    ghost predicate Valid()
      reads this
    {
      Formatted(disk) && (lastRound == 0 || lastRound == 1)
    }

    constructor (image: Disk, blank: Dentry)
      requires Formatted(image)
      ensures Valid() && disk == image && directoryIndex == 0 && lastRound == 0
    {
      disk := image;
      lastRound, directoryIndex := 0, 0;
      currFileDentry, currDirDentry := blank, blank;
    }

    /** strlen clipped to the 32 bytes of the field. */
    method NameLength(name: seq<Byte>) returns (len: nat)
      requires |name| == NAME
      ensures len == |UpTo(name, 0)|
    {
      len := 0;
      while len < NAME && name[len] != 0
        invariant 0 <= len <= NAME && |UpTo(name, 0)| >= len
      {
        len := len + 1;
        NulLater(name, len);
      }
    }

    /** The comparison of one entry: clipped lengths first, then byte by byte. */
    method SameName(fname: seq<Byte>, entry: Dentry) returns (same: bool)
      requires |entry.name| == NAME && 0 !in fname
      ensures same == (NameOf(entry) == Clip(fname))
    {
      var len := |fname|;
      var entryLen := NameLength(entry.name);
      if len > NAME { len := NAME; }
      if len != entryLen { return false; }
      ghost var name, clip := NameOf(entry), Clip(fname);
      assert |name| == |clip| == len && name == entry.name[..len] && clip == fname[..len];
      var j := 0;
      while j < len
        invariant 0 <= j <= len && name[..j] == clip[..j]
      {
        if fname[j] != entry.name[j] {
          assert name[j] != clip[j];
          return false;
        }
        j := j + 1;
      }
      assert name[..len] == name && clip[..len] == clip;
      same := true;
    }

    /** read_dentry_by_name; `fname` is the string before its NUL. */
    method ReadDentryByName(fname: seq<Byte>) returns (r: int, dentry: Dentry)
      requires Formatted(disk) && 0 !in fname
      ensures r == 0 || r == -1
      ensures r == 0 <==> Lookup(disk, fname, 0) < disk.dirNum
      ensures r == 0 ==> dentry == disk.entries[Lookup(disk, fname, 0)]
    {
      dentry := disk.entries[0];
      var i := 0;
      while i < disk.dirNum
        invariant 0 <= i <= disk.dirNum && Lookup(disk, fname, 0) == Lookup(disk, fname, i)
      {
        var same := SameName(fname, disk.entries[i]);
        if same {
          return 0, disk.entries[i];
        }
        i := i + 1;
      }
      r := -1;
    }

    method ReadDentryByIndex(index: nat) returns (r: int, dentry: Dentry)
      requires Formatted(disk)
      ensures r == (if index < disk.dirNum then 0 else -1)
      ensures r == 0 ==> dentry == disk.entries[index]
    {
      dentry := disk.entries[0];
      if index >= disk.dirNum { return -1, dentry; }
      return 0, disk.entries[index];
    }

    /** Where the copying from one data block ends: behind it, or when nothing is left. */
    function BlockEnd(at: nat, i: nat, want: nat): nat
      requires at < 4096 && i < want
    {
      if want - i <= 4096 - at then want else i + 4096 - at
    }

    /** The inner loop of read_data: one data block. */
    method CopyBlock(dataBlock: int, at: nat, buf: array<Byte>, i: nat, want: nat) returns (i': nat)
      requires Formatted(disk) && 0 <= dataBlock < |disk.data|
      requires at < 4096 && i < want && BlockEnd(at, i, want) <= buf.Length
      modifies buf
      ensures i' == BlockEnd(at, i, want)
      ensures forall k :: i <= k < i' ==> buf[k] == disk.data[dataBlock][at + k - i]
      ensures forall k :: 0 <= k < i || i' <= k < buf.Length ==> buf[k] == old(buf[k])
    {
      var addr := at;
      i' := i;
      while addr < 4096
        invariant at <= addr <= 4096 && addr - at == i' - i && i' < want
        invariant forall k :: i <= k < i' ==> buf[k] == disk.data[dataBlock][at + k - i]
        invariant forall k :: 0 <= k < i || i' <= k < buf.Length ==> buf[k] == old(buf[k])
      {
        buf[i'] := disk.data[dataBlock][addr];
        i' := i' + 1;
        addr := addr + 1;
        if i' == want { break; }
      }
    }

    /** The walk can go on at byte `i`: everything before is readable, and it ends inside inode and buffer. */
    ghost predicate Walking(ino: int, off: nat, room: nat, want: nat, i: nat) {
      && Formatted(disk) && 0 <= ino < |disk.inodes| && i <= want
      && (forall p: nat :: off <= p < off + i ==> HasByte(disk, ino, p))
      && var c := Readable(disk, ino, off, want);
         c <= room && (c == want || (off + c) / 4096 < |disk.inodes[ino].blocks|)
    }

    /** One round of the outer loop: the block at index `block`, if that is a good one. */
    method CopyNext(ino: int, off: nat, buf: array<Byte>, want: nat, i: nat, block: nat, at: nat)
      returns (ok: bool, i': nat)
      requires Walking(ino, off, buf.Length, want, i) && i < want && at < 4096 && block * 4096 + at == off + i
      modifies buf
      ensures ok ==> i' == BlockEnd(at, i, want) && Walking(ino, off, buf.Length, want, i') && i' <= buf.Length
      ensures ok ==> forall k :: i <= k < i' ==> buf[k] == FileByte(disk, ino, off + k)
      ensures !ok ==> i' == i == Readable(disk, ino, off, want)
      ensures forall k :: 0 <= k < i || i' <= k < buf.Length ==> buf[k] == old(buf[k])
    {
      InBlock(block, at);
      WalkStays(disk, ino, off, want, i);
      var dataBlock := disk.inodes[ino].blocks[block];
      if dataBlock < 0 || dataBlock >= |disk.data| {
        ReadableIs(disk, ino, off, want, i);
        return false, i;
      }
      BlockBytes(disk, ino, block, at, off + i, off + BlockEnd(at, i, want));
      ReadableAtLeast(disk, ino, off, want, BlockEnd(at, i, want));
      i' := CopyBlock(dataBlock, at, buf, i, want);
      ok := true;
    }

    /** The outer loop of read_data: block after block, until nothing is left or an index is bad. */
    method CopyBlocks(ino: int, off: nat, buf: array<Byte>, want: nat) returns (ok: bool)
      requires Walking(ino, off, buf.Length, want, 0)
      modifies buf
      ensures ok <==> Readable(disk, ino, off, want) == want
      ensures forall k: nat :: k < Readable(disk, ino, off, want) ==> buf[k] == FileByte(disk, ino, off + k)
      ensures forall k :: Readable(disk, ino, off, want) <= k < buf.Length ==> buf[k] == old(buf[k])
    {
      var block := off / 4096;
      var at := off % 4096;
      var i: nat := 0;
      ok := true;
      while i != want
        invariant Walking(ino, off, buf.Length, want, i) && i <= buf.Length
        invariant i != want ==> block * 4096 + at == off + i && 0 <= at < 4096
        invariant forall k :: 0 <= k < i ==> buf[k] == FileByte(disk, ino, off + k)
        invariant forall k :: i <= k < buf.Length ==> buf[k] == old(buf[k])
        decreases want - i
      {
        ok, i := CopyNext(ino, off, buf, want, i, block, at);
        if !ok { return; }
        at := 0;
        block := block + 1;
      }
      ReadableIs(disk, ino, off, want, i);
    }

    /** read_data: the bytes wanted up to the first bad block, and nothing else in `buf`. */
    method ReadData(ino: int, off: nat, buf: array<Byte>, n: nat) returns (r: int)
      requires Formatted(disk) && 0 <= ino && InInode(disk, ino, off, n) && Copied(disk, ino, off, n) <= buf.Length
      modifies buf
      ensures r == ReadReturn(disk, ino, off, n)
      ensures forall k: nat :: k < Copied(disk, ino, off, n) ==> buf[k] == FileByte(disk, ino, off + k)
      ensures forall k :: Copied(disk, ino, off, n) <= k < buf.Length ==> buf[k] == old(buf[k])
    {
      if ino >= |disk.inodes| { return -1; }
      if disk.inodes[ino].length == 0 { return -1; }
      var copyLength: nat;
      if (off + n) % 0x1_0000_0000 <= disk.inodes[ino].length {
        copyLength := n;
        r := n;
      } else {
        copyLength := (disk.inodes[ino].length - off) % 0x1_0000_0000;
        r := 0;
      }
      var ok := CopyBlocks(ino, off, buf, copyLength);
      if !ok { r := -1; }
    }

    /** The magic check of `execute`: the result of read_data is not looked at. */
    method HasMagic(ino: nat, elf: array<Byte>) returns (executable: bool)
      requires Formatted(disk) && elf.Length == 4
      modifies elf
      ensures Copied(disk, ino, 0, 4) <= 4
      ensures executable <==> AfterRead(disk, ino, 0, old(elf[..])) == ELF
    {
      ghost var junk := elf[..];
      InFileStays(disk, ino, 0, 4);
      var _ := ReadData(ino, 0, elf, 4);
      assert elf[..] == AfterRead(disk, ino, 0, junk);
      executable := true;
      var i := 0;
      while i < 4
        invariant 0 <= i <= 4 && executable
        invariant forall k :: 0 <= k < i ==> elf[k] == ELF[k]
      {
        if elf[i] != ELF[i] {
          executable := false;
          assert elf[..][i] != ELF[i];
          break;
        }
        i := i + 1;
      }
      assert executable ==> elf[..] == ELF;
    }

    /** The checks of `execute` on the file of a command, for every directory and every inode. */
    method CheckProgram(fname: seq<Byte>, elf: array<Byte>) returns (file: Slots.Lookup, ino: nat)
      requires Formatted(disk) && 0 !in fname && elf.Length == 4
      modifies elf
      ensures file == CommandFile(disk, fname, old(elf[..]))
      ensures file.Loadable? ==> ino == disk.entries[Lookup(disk, fname, 0)].inode
    {
      var exist, dentry := ReadDentryByName(fname);
      ino := dentry.inode;
      if exist == -1 { return Slots.NotFound, ino; }
      var executable := HasMagic(ino, elf);
      file := if executable then Slots.Loadable else Slots.NotExecutable;
    }

    /** The whole file to `image`, the entry point from its bytes 24..27. */
    method LoadImage(ino: nat, start: array<Byte>, image: array<Byte>) returns (entry: nat)
      requires Formatted(disk) && ino < |disk.inodes| && InFile(disk, ino, 24, 4)
      requires start.Length == 4 && start != image && disk.inodes[ino].length <= image.Length
      modifies start, image
      ensures Copied(disk, ino, 24, 4) <= 4 && Copied(disk, ino, 0, disk.inodes[ino].length) <= disk.inodes[ino].length
      ensures entry == LittleEndian(AfterRead(disk, ino, 24, old(start[..])))
      ensures image[..] ==
        AfterRead(disk, ino, 0, old(image[..disk.inodes[ino].length])) + old(image[disk.inodes[ino].length..])
      ensures Intact(disk, ino) ==>
        && image[..disk.inodes[ino].length] == Content(disk, ino)
        && (disk.inodes[ino].length >= 28 ==> entry == LittleEndian(Content(disk, ino)[24..28]))
    {
      ghost var before, junk := image[..], start[..];
      var size := disk.inodes[ino].length;
      InFileStays(disk, ino, 0, size);
      InFileStays(disk, ino, 24, 4);
      var _ := ReadData(ino, 0, image, size);
      assert image[..] == AfterRead(disk, ino, 0, before[..size]) + before[size..];
      var _ := ReadData(ino, 24, start, 4);
      assert start[..] == AfterRead(disk, ino, 24, junk);
      entry := start[3] as int * 0x1000000 + start[2] as int * 0x10000 + start[1] as int * 0x100 + start[0] as int;
      assert entry == LittleEndian(start[..]);
      if Intact(disk, ino) {
        IntactFills(disk, ino, 0, before[..size]);
        if size >= 28 { IntactFills(disk, ino, 24, junk); }
      }
    }

    /** file_open. */
    method FileOpen(fname: seq<Byte>) returns (r: int)
      requires Valid() && 0 !in fname
      modifies `lastRound, `currFileDentry
      ensures Valid() && lastRound == 0
      ensures r == (if Lookup(disk, fname, 0) < disk.dirNum then 0 else -1)
      ensures r == 0 ==> currFileDentry == disk.entries[Lookup(disk, fname, 0)]
      ensures r == -1 ==> currFileDentry == old(currFileDentry)
    {
      lastRound := 0;
      var dentry;
      r, dentry := ReadDentryByName(fname);
      if r == 0 { currFileDentry := dentry; }
    }

    /** dir_open. */
    method DirOpen(fname: seq<Byte>) returns (r: int)
      requires Valid() && 0 !in fname
      modifies `currDirDentry
      ensures currDirDentry ==
        if Lookup(disk, fname, 0) < disk.dirNum then disk.entries[Lookup(disk, fname, 0)] else old(currDirDentry)
      ensures r == if currDirDentry.fileType != 1 then -1 else 0
    {
      var found, dentry := ReadDentryByName(fname);
      if found == 0 { currDirDentry := dentry; }
      r := if currDirDentry.fileType != 1 then -1 else 0;
    }

    /** file_read; the position is a uint32, so a -1 from read_data wraps it. */
    method FileRead(fd: Slots.Descriptor, buf: array<Byte>, n: nat) returns (r: int, fd': Slots.Descriptor)
      requires Valid() && 0 <= fd.inode && 0 <= fd.position && InInode(disk, fd.inode, fd.position, n)
      requires Copied(disk, fd.inode, fd.position, n) <= buf.Length
      modifies `lastRound, buf
      ensures Valid() && fd' == fd.(position := fd'.position)
      ensures (r, fd'.position, lastRound) ==
        Settled(LengthOf(disk, fd.inode), fd.position, old(lastRound), ReadReturn(disk, fd.inode, fd.position, n))
      ensures Intact(disk, fd.inode) && InFile(disk, fd.inode, fd.position, n) ==>
        && (r, fd'.position, lastRound) == Reply(disk.inodes[fd.inode].length, fd.position, old(lastRound), n)
        && (r > 0 && n > 0 ==> r <= buf.Length && fd.position + r <= disk.inodes[fd.inode].length
                               && buf[..r] == Content(disk, fd.inode)[fd.position..fd.position + r])
      ensures forall k: nat :: k < Copied(disk, fd.inode, fd.position, n) ==>
        buf[k] == FileByte(disk, fd.inode, fd.position + k)
      ensures forall k :: Copied(disk, fd.inode, fd.position, n) <= k < buf.Length ==> buf[k] == old(buf[k])
    {
      var len := ReadData(fd.inode, fd.position, buf, n);
      r, fd' := Settle(fd, len);
      if Intact(disk, fd.inode) && InFile(disk, fd.inode, fd.position, n) {
        IntactReply(disk, fd.inode, fd.position, n, old(lastRound));
        if r > 0 && n > 0 { IntactSlice(disk, fd.inode, fd.position, n, old(lastRound), r, buf[..]); }
      }
    }

    /** What file_read does with the value read_data returned. */
    method Settle(fd: Slots.Descriptor, len: int) returns (r: int, fd': Slots.Descriptor)
      requires Valid() && -1 <= len && 0 <= fd.inode && 0 <= fd.position && (len == 0 ==> fd.inode < |disk.inodes|)
      modifies `lastRound
      ensures Valid() && fd' == fd.(position := fd'.position)
      ensures (r, fd'.position, lastRound) == Settled(LengthOf(disk, fd.inode), fd.position, old(lastRound), len)
    {
      fd' := fd.(position := (fd.position + len) % 0x1_0000_0000);
      r := len;
      if len == 0 && lastRound == 0 {
        lastRound := 1;
        r := disk.inodes[fd.inode].length - fd'.position;
      } else if len == 0 && lastRound == 1 {
        lastRound := 0;
        r := 0;
      }
    }

    /** dir_read; `nbytes` is ignored by the source, the buffer holds a whole name. */
    method DirRead(buf: array<Byte>) returns (j: nat)
      requires Valid() && buf.Length >= NAME
      modifies `directoryIndex, `currDirDentry, buf
      ensures Valid() && directoryIndex == NextIndex(disk, old(directoryIndex))
      ensures j == |Listed(disk, old(directoryIndex))| <= NAME && buf[..j] == Listed(disk, old(directoryIndex))
      ensures forall k :: j <= k < buf.Length ==> buf[k] == old(buf[k])
    {
      var ret, dentry := ReadDentryByIndex(directoryIndex);
      directoryIndex := directoryIndex + 1;
      if ret == -1 {
        directoryIndex := 0;
        return 0;
      }
      currDirDentry := dentry;
      j := NameLength(currDirDentry.name);
      CopyName(currDirDentry.name, j, buf);
    }

    /** The loop of dir_read. */
    method CopyName(name: seq<Byte>, len: nat, buf: array<Byte>)
      requires len <= |name| == NAME <= buf.Length
      modifies buf
      ensures buf[..len] == name[..len]
      ensures forall k :: len <= k < buf.Length ==> buf[k] == old(buf[k])
    {
      var j := 0;
      while j < len
        invariant 0 <= j <= len
        invariant forall k :: 0 <= k < j ==> buf[k] == name[k]
        invariant forall k :: j <= k < buf.Length ==> buf[k] == old(buf[k])
      {
        buf[j] := name[j];
        j := j + 1;
      }
    }
  }
}
