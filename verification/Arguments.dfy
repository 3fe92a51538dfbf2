/**
 The command line: how `execute` splits it and how `getargs` hands the argument
 back (system_call_handler.c), through strcpy and strncpy (lib.c).
 A C string is given by its characters before the NUL.
 */
module Arguments {
  import opened Common

  const BUFFER := 128

  predicate EndsName(c: char) { c == NUL || c == '\n' || c == ' ' }

  /** Length of the file name at the front of a command. */
  function NameLength(command: string): (n: nat)
    ensures n <= |command| && (n < |command| ==> EndsName(command[n]))
    ensures forall i :: 0 <= i < n ==> !EndsName(command[i])
  {
    if command == [] || EndsName(command[0]) then 0 else 1 + NameLength(command[1..])
  }

  /** What follows the separator. */
  function ArgumentOf(command: string): string {
    if NameLength(command) == |command| then "" else command[NameLength(command) + 1..]
  }

  /** Both parts fit the 128-byte buffers on the kernel stack, NUL included. */
  predicate Fits(command: string) {
    NameLength(command) < BUFFER && |ArgumentOf(command)| < BUFFER
  }

  /** The first loop: up to the separator. */
  method ParseName(command: string) returns (name: string)
    requires NameLength(command) < BUFFER
    ensures name == command[..NameLength(command)]
  {
    var filename := new char[BUFFER];
    var i := 0;
    while i < |command|
      invariant 0 <= i <= NameLength(command)
      invariant forall k :: 0 <= k < i ==> filename[k] == command[k]
    {
      if command[i] == NUL || command[i] == '\n' || command[i] == ' ' { break; }
      filename[i] := command[i];
      i := i + 1;
    }
    filename[i] := NUL;
    name := filename[..i];
  }

  /** The second loop: everything behind the separator. */
  method ParseArgument(command: string, nameLen: nat) returns (argument: string)
    requires nameLen < |command| && |command| - nameLen - 1 < BUFFER
    ensures argument == command[nameLen + 1..]
  {
    var currArg := new char[BUFFER];
    var i := nameLen + 1;
    while i < |command|
      invariant nameLen + 1 <= i <= |command|
      invariant forall k :: nameLen + 1 <= k < i ==> currArg[k - nameLen - 1] == command[k]
    {
      currArg[i - nameLen - 1] := command[i];
      i := i + 1;
    }
    currArg[i - nameLen - 1] := NUL;
    argument := currArg[..i - nameLen - 1];
    forall k | 0 <= k < |argument| ensures argument[k] == command[nameLen + 1..][k] {
      assert currArg[(k + nameLen + 1) - nameLen - 1] == command[k + nameLen + 1];
    }
  }

  /** The parsing part of `execute`: name, separator and argument make up the command. */
  method ParseCommand(command: string) returns (name: string, hasArgument: bool, argument: string)
    requires NUL !in command && Fits(command)
    ensures name == command[..NameLength(command)] && argument == ArgumentOf(command)
    ensures hasArgument <==> ' ' in command || '\n' in command
    ensures command == if hasArgument then name + [command[|name|]] + argument else name
  {
    name := ParseName(command);
    hasArgument := |name| != |command|;
    argument := "";
    if hasArgument {
      argument := ParseArgument(command, |name|);
    }
  }

  /** strcpy: the characters and the NUL. */
  method Strcpy(dest: array<char>, src: string)
    requires NUL !in src && |src| < dest.Length
    modifies dest
    ensures dest[..|src|] == src && dest[|src|] == NUL
    ensures forall k :: |src| < k < dest.Length ==> dest[k] == old(dest[k])
  {
    var i := 0;
    while i < |src|
      invariant 0 <= i <= |src| && dest[..i] == src[..i]
      invariant forall k :: i <= k < dest.Length ==> dest[k] == old(dest[k])
    {
      dest[i] := src[i];
      i := i + 1;
    }
    dest[i] := NUL;
  }

  /** strncpy: exactly `n` characters, NULs after a short source, no NUL after a long one. */
  method Strncpy(dest: array<char>, src: string, n: nat)
    requires NUL !in src && n <= dest.Length
    modifies dest
    ensures forall k :: 0 <= k < n ==> dest[k] == if k < |src| then src[k] else NUL
    ensures forall k :: n <= k < dest.Length ==> dest[k] == old(dest[k])
  {
    var i := 0;
    while i < |src| && i < n
      invariant 0 <= i <= n && i <= |src|
      invariant forall k :: 0 <= k < i ==> dest[k] == src[k]
      invariant forall k :: i <= k < dest.Length ==> dest[k] == old(dest[k])
    {
      dest[i] := src[i];
      i := i + 1;
    }
    while i < n
      invariant 0 <= i <= n && (i < n ==> i >= |src|)
      invariant forall k :: 0 <= k < i ==> dest[k] == if k < |src| then src[k] else NUL
      invariant forall k :: i <= k < dest.Length ==> dest[k] == old(dest[k])
    {
      dest[i] := NUL;
      i := i + 1;
    }
  }

  /** How many bytes `getargs` writes when asked for `n`. */
  function BytesWritten(arg: string, n: nat): nat {
    if arg == "" then 0 else if n < |arg| then |arg| + 1 else n
  }

  /** A count as strlen's unsigned result and strncpy's unsigned parameter make it. */
  function Unsigned(n: int): nat
    requires -0x8000_0000 <= n < 0x8000_0000
  {
    if n < 0 then n + UINT32 else n
  }

  /** getargs on the argument kept in the PCB; the test on `nbytes` picks the unbounded copy for the
      short buffer, and takes a negative count for a huge one. */
  method GetArgs(arg: string, buf: array<char>, nbytes: int) returns (r: int)
    requires NUL !in arg && -0x8000_0000 <= nbytes < 0x8000_0000
    requires BytesWritten(arg, Unsigned(nbytes)) <= buf.Length
    modifies buf
    ensures r == if arg == "" then -1 else 0
    ensures var w := BytesWritten(arg, Unsigned(nbytes));
      && (forall k :: 0 <= k < w ==> buf[k] == if k < |arg| then arg[k] else NUL)
      && forall k :: w <= k < buf.Length ==> buf[k] == old(buf[k])
  {
    if arg == "" { return -1; }
    var n := Unsigned(nbytes);
    if n < |arg| {
      Strcpy(buf, arg);
    } else {
      Strncpy(buf, arg, n);
    }
    r := 0;
  }

  /** `getargs` keeps to a buffer of `nbytes` bytes exactly when the argument is no longer than the
      buffer and the count not negative, and what it leaves there ends in a NUL exactly when the
      argument's length is not the count. */
  lemma GetArgsStaysInBuffer(arg: string, nbytes: int)
    requires 0 < |arg| < BUFFER && -0x8000_0000 <= nbytes < 0x8000_0000
    ensures BytesWritten(arg, Unsigned(nbytes)) <= nbytes <==> |arg| <= nbytes
    ensures nbytes < 0 ==> BytesWritten(arg, Unsigned(nbytes)) >= 0x8000_0000
    ensures BytesWritten(arg, Unsigned(nbytes)) > |arg| <==> |arg| != nbytes
  {
  }
}
