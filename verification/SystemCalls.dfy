/**
 The system calls that need both sides: `execute` and `open` look a file up and
 change the process part, `read` moves the position kept in the caller's PCB
 (system_call_handler.c).
 */
module SystemCalls {
  import opened Common
  import opened Slots
  import SlotInvariant
  import StepEffects
  import KernelState
  import FS = FileSystem
  import FileDriver
  import Drains
  import Arguments

  /** A C string as the file system compares it. */
  function Bytes(s: string): (r: seq<Byte>)
    requires forall i :: 0 <= i < |s| ==> s[i] as int < 256
    ensures |r| == |s| && forall i :: 0 <= i < |s| ==> r[i] == s[i] as int
  {
    if s == "" then [] else [s[0] as int] + Bytes(s[1..])
  }

  /** Some directory entry has the name. */
  predicate Exists(d: FS.Disk, fname: seq<Byte>)
    requires FS.Formatted(d)
  {
    FS.Lookup(d, fname, 0) < d.dirNum
  }

  function EntryOf(d: FS.Disk, fname: seq<Byte>): FS.Dentry
    requires FS.Formatted(d)
  {
    var i := FS.Lookup(d, fname, 0);
    if i < d.dirNum then d.entries[i] else d.entries[0]
  }

  datatype Command = NullCommand | Text(chars: string)

  /** A command whose parts fit the buffers of `execute`, in characters of one byte. */
  predicate Readable(command: string) {
    NUL !in command && Arguments.Fits(command) && forall i :: 0 <= i < |command| ==> command[i] as int < 256
  }

  /** The file name of a command. */
  function CommandName(command: string): seq<Byte>
    requires forall i :: 0 <= i < |command| ==> command[i] as int < 256
  {
    Bytes(command[..Arguments.NameLength(command)])
  }

  /** The file is the one named by the first word, up to a space or a newline; what follows is the argument. */
  lemma FirstWordNames(command: string, name: string, separator: char, rest: string)
    requires command == name + [separator] + rest && (separator == ' ' || separator == '\n')
    requires NUL !in command && ' ' !in name && '\n' !in name
    requires forall i :: 0 <= i < |command| ==> command[i] as int < 256
    ensures forall i :: 0 <= i < |name| ==> name[i] as int < 256
    ensures CommandName(command) == Bytes(name) && Arguments.ArgumentOf(command) == rest
  {
    WordLength(command, |name|);
    assert command[..|name|] == name && command[|name| + 1..] == rest;
  }

  lemma {:induction false} WordLength(command: string, n: nat)
    requires n <= |command| && NUL !in command && (n < |command| ==> command[n] == ' ' || command[n] == '\n')
    requires forall i :: 0 <= i < n ==> command[i] != ' ' && command[i] != '\n'
    ensures Arguments.NameLength(command) == n
    decreases n
  {
    if n == 0 {
    } else {
      WordLength(command[1..], n - 1);
    }
  }

  /** A command without either names the file by all of itself and has no argument. */
  lemma OneWordNames(command: string)
    requires NUL !in command && ' ' !in command && '\n' !in command
    requires forall i :: 0 <= i < |command| ==> command[i] as int < 256
    ensures CommandName(command) == Bytes(command) && Arguments.ArgumentOf(command) == ""
  {
    WordLength(command, |command|);
    assert command[..|command|] == command;
  }

  /** A program starts exactly when a slot is free and some entry has the name, the first of them with
      the magic number in its first four bytes. */
  ghost predicate Starts(d: FS.Disk, fname: seq<Byte>, m: State)
    requires FS.Formatted(d)
  {
    (exists s :: 0 <= s < 6 && !Used(m.stacks, s)) && NamesProgram(d, fname)
  }

  ghost predicate NamesProgram(d: FS.Disk, fname: seq<Byte>)
    requires FS.Formatted(d)
  {
    exists i :: 0 <= i < d.dirNum && FirstOfName(d, fname, i) && HasMagicNumber(d, d.entries[i].inode)
  }

  ghost predicate FirstOfName(d: FS.Disk, fname: seq<Byte>, i: nat)
    requires FS.Formatted(d) && i < d.dirNum
  {
    && UpTo(d.entries[i].name, 0) == (if |fname| > 32 then fname[..32] else fname)
    && forall j :: 0 <= j < i ==> UpTo(d.entries[j].name, 0) != UpTo(d.entries[i].name, 0)
  }

  ghost predicate LongEnough(d: FS.Disk, ino: int) {
    FS.Intact(d, ino) && d.inodes[ino].length >= 4
  }

  /** The named file, if there is one, is intact and not shorter than four bytes. */
  ghost predicate NamedIsLong(d: FS.Disk, fname: seq<Byte>)
    requires FS.Formatted(d)
  {
    Exists(d, fname) ==> LongEnough(d, EntryOf(d, fname).inode)
  }

  ghost predicate HasMagicNumber(d: FS.Disk, ino: int) {
    LongEnough(d, ino) && FS.Content(d, ino)[0..4] == [0x7f, 0x45, 0x4c, 0x46]
  }

  lemma OnlyOneIsFirst(d: FS.Disk, fname: seq<Byte>, i: nat)
    requires FS.Formatted(d) && i < d.dirNum && FirstOfName(d, fname, i)
    ensures FS.Lookup(d, fname, 0) == i
  {
    FS.FirstNamed(d, fname, i);
  }

  lemma LookupIsFirst(d: FS.Disk, fname: seq<Byte>)
    requires FS.Formatted(d) && Exists(d, fname)
    ensures FirstOfName(d, fname, FS.Lookup(d, fname, 0))
  {
    var i := FS.Lookup(d, fname, 0);
    forall j | 0 <= j < i ensures UpTo(d.entries[j].name, 0) != UpTo(d.entries[i].name, 0) {
      assert FS.NameOf(d.entries[j]) != FS.Clip(fname);
    }
  }

  lemma LoadableHasMagic(d: FS.Disk, fname: seq<Byte>, junk: seq<Byte>, i: nat)
    requires FS.Formatted(d) && |junk| == 4 && i < d.dirNum && FirstOfName(d, fname, i)
    requires LongEnough(d, d.entries[i].inode)
    ensures FS.CommandFile(d, fname, junk).Loadable? <==> HasMagicNumber(d, d.entries[i].inode)
  {
    FS.LoadableExactly(d, fname, junk, i);
  }

  lemma LoadsExactly(d: FS.Disk, fname: seq<Byte>, junk: seq<Byte>)
    requires FS.Formatted(d) && |junk| == 4 && NamedIsLong(d, fname)
    ensures FS.CommandFile(d, fname, junk).Loadable? <==> NamesProgram(d, fname)
  {
    if i: nat :| i < d.dirNum && FirstOfName(d, fname, i) {
      OnlyOneIsFirst(d, fname, i);
      LoadableHasMagic(d, fname, junk, i);
      forall k: nat | k < d.dirNum && FirstOfName(d, fname, k) ensures k == i {
        OnlyOneIsFirst(d, fname, k);
      }
    } else if Exists(d, fname) {
      LookupIsFirst(d, fname);
    }
  }

  /** The part of `execute` before it claims a slot. */
  method FindProgram(f: FileDriver.Files, command: string, elf: array<Byte>)
    returns (file: Lookup, ino: nat, argument: string)
    requires f.Valid() && Readable(command) && elf.Length == 4
    modifies elf
    ensures file == FS.CommandFile(f.disk, CommandName(command), old(elf[..]))
    ensures argument == Arguments.ArgumentOf(command)
    ensures file.Loadable? ==> ino == EntryOf(f.disk, CommandName(command)).inode
    ensures NamedIsLong(f.disk, CommandName(command)) ==>
      (file.Loadable? <==> NamesProgram(f.disk, CommandName(command)))
  {
    if NamedIsLong(f.disk, CommandName(command)) { LoadsExactly(f.disk, CommandName(command), elf[..]); }
    var name, hasArgument, arg := Arguments.ParseCommand(command);
    argument := arg;
    file, ino := f.CheckProgram(Bytes(name), elf);
  }

  /** What `execute` does not check before it loads: the image fits, and the file reaches to byte 24. */
  predicate ImageFits(d: FS.Disk, ino: nat, room: nat) {
    ino < |d.inodes| && FS.InFile(d, ino, 24, 4) && d.inodes[ino].length <= room
  }

  /** The image starts with the whole file, and the entry point is in the file's bytes 24 to 27. */
  ghost predicate Loaded(d: FS.Disk, ino: int, image: seq<Byte>, entry: nat) {
    FS.Intact(d, ino) ==>
      var content := FS.Content(d, ino);
      content <= image && (|content| >= 28 ==> entry == FS.LittleEndian(content[24..28]))
  }

  /** `execute` whole: the command is split, the file checked, a slot claimed and the image loaded. */
  method Execute(k: KernelState.Kernel, f: FileDriver.Files, command: Command, frame: Frame,
                 elf: array<Byte>, start: array<Byte>, image: array<Byte>)
    returns (started: bool, entry: nat)
    requires k.Rep() && f.Valid() && (command.Text? ==> Readable(command.chars))
    requires elf.Length == 4 && start.Length == 4 && elf != start && elf != image && start != image
    requires command.Text? ==>
      var fname := CommandName(command.chars);
      FS.CommandFile(f.disk, fname, elf[..]).Loadable? ==> ImageFits(f.disk, EntryOf(f.disk, fname).inode, image.Length)
    modifies k`exceptionFlag, k`stacks, k`esp0, k`ss0, k`cr3, k`regs, k.avail, k.physMem, k.pcb, elf, start, image
    ensures k.Rep() && (command.NullCommand? ==> !started && k.Abs() == old(k.Abs()))
    ensures command.Text? ==>
      var fname := CommandName(command.chars);
      var file := FS.CommandFile(f.disk, fname, old(elf[..]));
      && k.Abs() == Slots.Execute(old(k.Abs()), file, Arguments.ArgumentOf(command.chars), frame)
      && started == Launches(old(k.Abs()), file)
      && (NamedIsLong(f.disk, fname) ==> (started <==> Starts(f.disk, fname, old(k.Abs()))))
      && (started ==> Loaded(f.disk, EntryOf(f.disk, fname).inode, image[..], entry))
  {
    if command.NullCommand? { return false, 0; }
    var file, ino, argument := FindProgram(f, command.chars, elf);
    StepEffects.LaunchesExactly(k.Abs(), file);
    started := k.Execute(file, argument, frame);
    entry := 0;
    if started {
      entry := f.LoadImage(ino, start, image);
    }
  }

  /** `open` whole: the descriptor, then the open function of the jump table.  Opening any regular file
      clears the flag all readers share. */
  method Open(k: KernelState.Kernel, f: FileDriver.Files, fname: seq<Byte>) returns (fd: int)
    requires k.Rep() && k.HasCaller() && f.Valid() && 0 !in fname
    modifies k.pcb, f`lastRound, f`currFileDentry, f`currDirDentry
    ensures k.Rep() && f.Valid() && fd == OpenResult(old(k.Abs()), Exists(f.disk, fname))
    ensures var e := EntryOf(f.disk, fname);
      k.Abs() == Slots.Open(old(k.Abs()), Exists(f.disk, fname), e.fileType, e.inode)
    ensures f.lastRound == if fd != -1 && EntryOf(f.disk, fname).fileType !in {0, 1} then 0 else old(f.lastRound)
    ensures f.currDirDentry ==
      if fd != -1 && EntryOf(f.disk, fname).fileType == 1 then EntryOf(f.disk, fname) else old(f.currDirDentry)
  {
    var r, dentry := f.ReadDentryByName(fname);
    fd := k.Open(r == 0, dentry.fileType, dentry.inode);
    if fd == -1 { return; }
    if dentry.fileType == 0 {
    } else if dentry.fileType == 1 {
      var _ := f.DirOpen(fname);
    } else {
      var _ := f.FileOpen(fname);
    }
  }

  /** `read` on a descriptor of a regular file: file_read moves the position in the caller's PCB. */
  method ReadFile(k: KernelState.Kernel, f: FileDriver.Files, fd: int, buf: array<Byte>, n: nat) returns (r: int)
    requires k.Rep() && k.HasCaller() && f.Valid() && 2 <= fd < DESCRIPTORS
    requires var d := TopFds(k.Abs())[fd];
      && d.ops == File && d.flags != 0 && 0 <= d.inode && 0 <= d.position
      && FS.InInode(f.disk, d.inode, d.position, n) && FS.Copied(f.disk, d.inode, d.position, n) <= buf.Length
    modifies k.pcb, f`lastRound, buf
    ensures k.Rep() && f.Valid()
    ensures var d, d' := old(TopFds(k.Abs())[fd]), TopFds(k.Abs())[fd];
      && d' == d.(position := d'.position) && k.Abs() == WithFds(old(k.Abs()), old(TopFds(k.Abs()))[fd := d'])
      && (r, d'.position, f.lastRound) == FS.Settled(FS.LengthOf(f.disk, d.inode), d.position, old(f.lastRound),
                                            FS.ReadReturn(f.disk, d.inode, d.position, n))
      && (FS.Intact(f.disk, d.inode) && FS.InFile(f.disk, d.inode, d.position, n) ==>
            && (r, d'.position, f.lastRound) == FS.Reply(f.disk.inodes[d.inode].length, d.position, old(f.lastRound), n)
            && (r > 0 && n > 0 ==>
                  && r <= buf.Length && d.position + r <= f.disk.inodes[d.inode].length
                  && buf[..r] == FS.Content(f.disk, d.inode)[d.position..d.position + r]))
  {
    var ops := k.Dispatch(fd, 1);
    assert ops == File;
    var d := k.Fetch(fd);
    var d';
    r, d' := f.FileRead(d, buf, n);
    k.Store(fd, d');
  }

  /** Descriptor `fd` of the caller stands at `pos` of file `ino`. */
  ghost predicate Reading(k: KernelState.Kernel, f: FileDriver.Files, fd: int, ino: nat, pos: nat)
    reads k, k.avail, k.physMem, k.pcb, k.vidOn, f
  {
    && k.Rep() && k.HasCaller() && f.Valid() && 2 <= fd < DESCRIPTORS
    && TopFds(k.Abs())[fd] == Descriptor(File, ino, pos, 1)
  }

  lemma NothingBetween(content: seq<Byte>, pos: nat)
    requires pos <= |content|
    ensures [] == content[pos..pos + 0]
  {
  }

  /** One `read` of an intact file: the protocol's reply counts the piece now at the front of the buffer,
      the next one of the file. */
  method ReadPiece(k: KernelState.Kernel, f: FileDriver.Files, fd: int, ghost ino: nat, ghost pos: nat,
                   buf: array<Byte>, n: nat)
    returns (piece: seq<Byte>, ghost pos': nat)
    requires Reading(k, f, fd, ino, pos) && FS.Intact(f.disk, ino) && pos <= f.disk.inodes[ino].length
    requires 0 < n <= buf.Length && f.disk.inodes[ino].length + n < UINT32
    modifies k.pcb, f`lastRound, buf
    ensures Reading(k, f, fd, ino, pos')
    ensures (|piece|, pos', f.lastRound) == FS.Reply(f.disk.inodes[ino].length, pos, old(f.lastRound), n)
    ensures pos + |piece| <= f.disk.inodes[ino].length && piece == FS.Content(f.disk, ino)[pos..pos + |piece|]
  {
    FS.InFileStays(f.disk, ino, pos, n);
    var r := ReadFile(k, f, fd, buf, n);
    pos' := TopFds(k.Abs())[fd].position;
    if r > 0 {
      piece := buf[..r];
      assert |piece| == r;
    } else {
      piece := [];
      NothingBetween(FS.Content(f.disk, ino), pos);
    }
  }

  /** Reading on until the first 0 is the drain of the protocol, from wherever descriptor and flag stand. */
  method ReadOn(k: KernelState.Kernel, f: FileDriver.Files, fd: int, ghost ino: nat, ghost pos: nat,
                buf: array<Byte>, n: nat)
    returns (got: seq<Byte>)
    requires Reading(k, f, fd, ino, pos) && FS.Intact(f.disk, ino) && pos <= f.disk.inodes[ino].length
    requires 0 < n <= buf.Length && f.disk.inodes[ino].length + n < UINT32
    modifies k.pcb, f`lastRound, buf
    ensures got == Drains.Drain(FS.Content(f.disk, ino), pos, old(f.lastRound), n)
    decreases f.disk.inodes[ino].length - pos, 1 - f.lastRound
  {
    ghost var content, last := FS.Content(f.disk, ino), f.lastRound;
    Drains.DrainFirst(content, pos, last, n);
    var piece, pos' := ReadPiece(k, f, fd, ino, pos, buf, n);
    if |piece| == 0 { return []; }
    var rest := ReadOn(k, f, fd, ino, pos', buf, n);
    Drains.DrainPiece(content, pos, last, n, piece, rest);
    got := piece + rest;
  }

  /** A reader that opens a file and reads `n` bytes at a time until the first 0, with no other open or
      read in between, holds exactly the file. */
  method ReadWhole(k: KernelState.Kernel, f: FileDriver.Files, fname: seq<Byte>, buf: array<Byte>, n: nat)
    returns (got: seq<Byte>)
    requires k.Rep() && k.HasCaller() && f.Valid() && 0 !in fname && 0 < n <= buf.Length
    requires SlotInvariant.FdsOk(TopFds(k.Abs())) && OpenResult(k.Abs(), true) != -1
    requires Exists(f.disk, fname) && EntryOf(f.disk, fname).fileType !in {0, 1}
    requires FS.Intact(f.disk, EntryOf(f.disk, fname).inode)
    requires f.disk.inodes[EntryOf(f.disk, fname).inode].length + n < UINT32
    modifies k.pcb, f`lastRound, f`currFileDentry, f`currDirDentry, buf
    ensures got == FS.Content(f.disk, EntryOf(f.disk, fname).inode)
  {
    var fd := Open(k, f, fname);
    got := ReadOn(k, f, fd, EntryOf(f.disk, fname).inode, 0, buf, n);
    Drains.DrainIsWholeFile(FS.Content(f.disk, EntryOf(f.disk, fname).inode), 0, n);
  }
}
