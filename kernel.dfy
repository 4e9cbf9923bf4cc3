/** Kernel.interrupt: the single entry point through which programs and the
    hardware reach the kernel. A (kind, i1) pair selects a handler; objects
    passed as Object are cast to the type the handler expects; any exception
    a handler throws is caught and reported as ERROR_BAD_ARGUMENT. */
module KernelEntry {
  import opened JavaTypes
  import opened Blocks
  import opened FastDiskDevice
  import opened FileSystem
  import opened KernelFs
  import opened KernelFsProps
  import opened KernelCodes
  import opened Processes

  /** What an Object argument of interrupt refers to. */
  datatype Obj = Null | Str(s: string) | Strs(ss: seq<string>) | Buffer | Device(d: FastDisk) | Other

  /** The handler interrupt runs for a (kind, i1) pair. */
  datatype Handler =
    | Output | Input | Exec | Join | FormatDisk | CreateFile | ReadFile | WriteFile
    | DeleteFile | ReadDir | Shutdown | BlockSizeQuery | DiskDone | PowerOn | BadArgument

  /** The switch of interrupt: on the kind, and for a user interrupt on the
      system-call number i1. */
  function Route(kind: int, i1: int): (h: Handler)
    ensures h == BadArgument <==>
      !(kind == INTERRUPT_DISK || kind == INTERRUPT_POWER_ON
        || (kind == INTERRUPT_USER && SYSCALL_OUTPUT <= i1 <= SYSCALL_GET_BLOCK_SIZE))
    ensures h == DiskDone <==> kind == INTERRUPT_DISK
    ensures h == PowerOn <==> kind == INTERRUPT_POWER_ON
  {
    if kind == INTERRUPT_USER then
      if i1 == SYSCALL_OUTPUT then Output
      else if i1 == SYSCALL_INPUT then Input
      else if i1 == SYSCALL_EXEC then Exec
      else if i1 == SYSCALL_JOIN then Join
      else if i1 == SYSCALL_FORMAT then FormatDisk
      else if i1 == SYSCALL_CREATE then CreateFile
      else if i1 == SYSCALL_READ then ReadFile
      else if i1 == SYSCALL_WRITE then WriteFile
      else if i1 == SYSCALL_DELETE then DeleteFile
      else if i1 == SYSCALL_READDIR then ReadDir
      else if i1 == SYSCALL_SHUTDOWN then Shutdown
      else if i1 == SYSCALL_GET_BLOCK_SIZE then BlockSizeQuery
      else BadArgument
    else if kind == INTERRUPT_DISK then DiskDone
    else if kind == INTERRUPT_POWER_ON then PowerOn
    else BadArgument
  }

  /** The (kind, i1) a caller passes to reach a handler (Library's side of
      the interface; i1 is unused outside user interrupts). */
  function Code(h: Handler): (c: (int, int))
    requires h != BadArgument
    ensures Route(c.0, c.1) == h
  {
    match h
    case Output => (INTERRUPT_USER, SYSCALL_OUTPUT)
    case Input => (INTERRUPT_USER, SYSCALL_INPUT)
    case Exec => (INTERRUPT_USER, SYSCALL_EXEC)
    case Join => (INTERRUPT_USER, SYSCALL_JOIN)
    case FormatDisk => (INTERRUPT_USER, SYSCALL_FORMAT)
    case CreateFile => (INTERRUPT_USER, SYSCALL_CREATE)
    case ReadFile => (INTERRUPT_USER, SYSCALL_READ)
    case WriteFile => (INTERRUPT_USER, SYSCALL_WRITE)
    case DeleteFile => (INTERRUPT_USER, SYSCALL_DELETE)
    case ReadDir => (INTERRUPT_USER, SYSCALL_READDIR)
    case Shutdown => (INTERRUPT_USER, SYSCALL_SHUTDOWN)
    case BlockSizeQuery => (INTERRUPT_USER, SYSCALL_GET_BLOCK_SIZE)
    case DiskDone => (INTERRUPT_DISK, 0)
    case PowerOn => (INTERRUPT_POWER_ON, 0)
  }

  /** Every user system call is reached by exactly one number: routing and
      coding are inverse on them. */
  lemma RouteCode(i1: int)
    requires SYSCALL_OUTPUT <= i1 <= SYSCALL_GET_BLOCK_SIZE
    ensures Route(INTERRUPT_USER, i1) != BadArgument
    ensures Code(Route(INTERRUPT_USER, i1)) == (INTERRUPT_USER, i1)
  {
  }

  /** The system calls served by the file system. */
  predicate IsFileCall(i1: int) {
    SYSCALL_FORMAT <= i1 <= SYSCALL_GET_BLOCK_SIZE
  }

  /** The value interrupt returns for a handler's outcome: a thrown
      exception becomes ERROR_BAD_ARGUMENT. */
  function Answer(res: (Outcome, FsState)): (a: (int, FsState))
    ensures a.1 == res.1
    ensures res.0.Threw? ==> a.0 == ERROR_BAD_ARGUMENT
    ensures res.0.Returned? ==> a.0 == res.0.value
  {
    (if res.0.Threw? then ERROR_BAD_ARGUMENT else res.0.value, res.1)
  }

  /** A file-system call through interrupt, on a mounted file system: the
      handler's result and state, with the (String) o1 cast of write and
      delete, and getBytes on the name. */
  function FileCall(s: FsState, size: int, i1: int, o1: Obj, a: Option<seq<byte>>): (res: (int, FsState))
    requires Shaped(s, size) && IsFileCall(i1)
    ensures i1 == SYSCALL_FORMAT ==> res == (0, Format(s, size).1)
    ensures (i1 == SYSCALL_WRITE || i1 == SYSCALL_DELETE) && !o1.Str? ==> res == (ERROR_BAD_ARGUMENT, s)
    ensures i1 == SYSCALL_READDIR || i1 == SYSCALL_SHUTDOWN ==> res == (0, s)
    ensures i1 == SYSCALL_GET_BLOCK_SIZE ==> res == (BlockSize, s)
    ensures SYSCALL_CREATE <= i1 <= SYSCALL_DELETE ==> res.0 == 0 || res.0 == ERROR_BAD_ARGUMENT
  {
    if i1 == SYSCALL_FORMAT then Answer(KernelFs.Format(s, size))
    else if i1 == SYSCALL_CREATE then Answer(Create(s, size, a))
    else if i1 == SYSCALL_READ then Answer(Read(s, size, a))
    else if i1 == SYSCALL_WRITE then
      if o1.Str? then Answer(Write(s, size, Encode(o1.s), a)) else (ERROR_BAD_ARGUMENT, s)
    else if i1 == SYSCALL_DELETE then
      if o1.Str? then Answer(Delete(s, size, Encode(o1.s))) else (ERROR_BAD_ARGUMENT, s)
    else if i1 == SYSCALL_READDIR || i1 == SYSCALL_SHUTDOWN then (0, s)
    else (BlockSize, s)
  }

  /** Every file-system call but format keeps the file table in step with
      the disk. */
  lemma FileCallPreserves(s: FsState, size: int, i1: int, o1: Obj, a: Option<seq<byte>>)
    requires Consistent(s, size) && IsFileCall(i1) && i1 != SYSCALL_FORMAT
    ensures Consistent(FileCall(s, size, i1, o1, a).1, size)
  {
    if i1 == SYSCALL_CREATE {
      CreatePreserves(s, size, a);
    } else if i1 == SYSCALL_WRITE && o1.Str? {
      WritePreserves(s, size, Encode(o1.s), a);
    } else if i1 == SYSCALL_DELETE && o1.Str? {
      DeletePreserves(s, size, Encode(o1.s));
    }
  }

  /** String.getBytes, one byte per character. */
  method GetBytes(s: string) returns (a: array<byte>)
    ensures fresh(a) && a[..] == Encode(s)
  {
    a := new byte[|s|];
    var i := 0;
    while i < |s|
      invariant 0 <= i <= |s|
      invariant a[..i] == Encode(s[..i])
    {
      a[i] := CharToByte(s[i]);
      assert s[..i + 1] == s[..i] + [s[i]];
      i := i + 1;
    }
    assert s[..|s|] == s;
  }

  /** The static state of Kernel: the file system mounted at power-on (null
      before), the disk it was handed, the cache size, and the process table
      with the programs reflection can find. */
  class Kernel {
    var filesys: FileSys?
    var disk: FastDisk?
    var cacheSize: int
    const procs: ProcessTable
    const registry: Registry

    ghost predicate Valid()
      reads this, procs, if filesys == null then {} else {filesys, filesys.disk}
    {
      procs.Valid() && (filesys != null ==> filesys.Valid())
    }

    /** The kernel before power-on: no file system, an empty process table. */
    constructor (registry: Registry)
      ensures Valid() && filesys == null && disk == null && fresh(procs)
      ensures procs.pidMap == map[] && procs.nextpid == 1 && this.registry == registry
    {
      filesys := null;
      disk := null;
      cacheSize := 0;
      procs := new ProcessTable();
      this.registry := registry;
    }

    /** The file-system cases of interrupt on a mounted file system. */
    static method FileSyscall(fs: FileSys, i1: int, o1: Obj, a: array?<byte>) returns (r: int)
      requires fs.Valid() && IsFileCall(i1) && a != fs.disk.data
      modifies fs.disk, fs.disk.data, fs.fileTable
      ensures fs.Valid()
      ensures (r, StateOf(fs)) == FileCall(old(StateOf(fs)), fs.disk.diskSize, i1, o1, Bytes(a))
    {
      var o: Outcome;
      if i1 == SYSCALL_FORMAT {
        o := DoFormat(fs);
      } else if i1 == SYSCALL_CREATE {
        o := DoCreateFile(fs, a);
      } else if i1 == SYSCALL_READ {
        var shown;
        o, shown := DoRead(fs, a);
      } else if i1 == SYSCALL_WRITE || i1 == SYSCALL_DELETE {
        if !o1.Str? {
          return ERROR_BAD_ARGUMENT;
        }
        var p := GetBytes(o1.s);
        if i1 == SYSCALL_WRITE {
          o := DoWrite(fs, p, a);
        } else {
          o := DoDelete(fs, p);
        }
      } else if i1 == SYSCALL_READDIR || i1 == SYSCALL_SHUTDOWN {
        return 0;
      } else {
        return fs.GetBlockSizeOfDisk();
      }
      r := if o.Threw? then ERROR_BAD_ARGUMENT else o.value;
    }

    /** The exec case of interrupt has run: its result is the one ExecResult
        gives for the table before, a failure leaves the table as it was, and
        a success registers a fresh launcher under the id it returns. */
    twostate predicate ExecDone(o1: Obj, o2: Obj, r: int)
      reads this, procs, procs.pidMap.Values
    {
      && old(procs.nextpid) >= 1
      && r == ExecResult(o1, o2, registry, old(procs.nextpid))
      && (r < 1 ==> procs.pidMap == old(procs.pidMap) && procs.nextpid == old(procs.nextpid))
      && (1 <= r ==>
          && r !in old(procs.pidMap) && procs.nextpid == r + 1
          && r in procs.pidMap && fresh(procs.pidMap[r]) && procs.pidMap[r].returnCode == 0
          && procs.pidMap == old(procs.pidMap)[r := procs.pidMap[r]])
    }

    /** The exec case of interrupt: the (String) o1 and (String[]) o2 casts,
        then doExec. */
    method ExecCall(o1: Obj, o2: Obj) returns (r: int)
      requires procs.Valid()
      modifies procs
      ensures procs.Valid()
      ensures ExecDone(o1, o2, r)
    {
      if !(o1.Null? || o1.Str?) || !(o2.Null? || o2.Strs?) {
        return ERROR_BAD_ARGUMENT;
      }
      var command := if o1.Str? then Some(o1.s) else None;
      var args := if o2.Strs? then Some(o2.ss) else None;
      r := DoExec(procs, command, args, registry);
    }

    /** doPowerOn(i1, o1, o2): record the cache size, take o1 as the disk and
        mount it, then cast o2 to the shell command. */
    method DoPowerOn(i1: int, o1: Obj, o2: Obj) returns (r: int)
      requires Valid() && (o1.Device? ==> o1.d.Valid())
      modifies this, if o1.Device? then {o1.d} else {}
      ensures Valid() && cacheSize == i1
      ensures o1.Device? ==> o1.d.Valid()
      ensures r == 0 <==> o1.Device? && !MountFaults(o1.d.Image(), o1.d.diskSize) && (o2.Null? || o2.Str?)
      ensures r != 0 ==> r == ERROR_BAD_ARGUMENT
      ensures o1.Device? ==> disk == o1.d && o1.d.Image() == old(o1.d.Image())
      ensures o1.Null? ==> disk == null
      ensures !o1.Device? && !o1.Null? ==> disk == old(disk)
      ensures o1.Device? && !MountFaults(o1.d.Image(), o1.d.diskSize) ==>
        && filesys != null && fresh(filesys) && filesys.disk == o1.d
        && filesys.fileTable[..] == MountedTable(o1.d.Image(), o1.d.diskSize)
      ensures !(o1.Device? && !MountFaults(o1.d.Image(), o1.d.diskSize)) ==> filesys == old(filesys)
    {
      cacheSize := i1;
      if !o1.Device? && !o1.Null? {
        return ERROR_BAD_ARGUMENT;
      }
      disk := if o1.Device? then o1.d else null;
      if o1.Null? {
        return ERROR_BAD_ARGUMENT;
      }
      var fs := FileSys.Mount(o1.d);
      if fs == null {
        return ERROR_BAD_ARGUMENT;
      }
      filesys := fs;
      r := if o2.Null? || o2.Str? then 0 else ERROR_BAD_ARGUMENT;
    }

    /** interrupt(kind, i1, i2, o1, o2, a). The console's next line, for
        SYSCALL_INPUT, is the parameter line (None at the end of input). */
    method Interrupt(kind: int, i1: int, i2: int, o1: Obj, o2: Obj, a: array?<byte>, line: Option<string>)
      returns (r: int)
      requires Valid()
      requires filesys != null ==> a != filesys.disk.data
      requires o1.Device? ==> o1.d.Valid()
      modifies this, procs
      modifies if filesys == null then {} else {filesys.disk, filesys.disk.data, filesys.fileTable}
      modifies if o1.Device? then {o1.d} else {}
      ensures Valid() && (o1.Device? ==> o1.d.Valid())
      ensures Route(kind, i1) != PowerOn ==> filesys == old(filesys) && disk == old(disk) && cacheSize == old(cacheSize)
      ensures Route(kind, i1) == BadArgument ==> r == ERROR_BAD_ARGUMENT
      ensures Route(kind, i1) == DiskDone ==> r == 0
      ensures Route(kind, i1) == Output ==> r == (if o1.Null? || o1.Str? then 0 else ERROR_BAD_ARGUMENT)
      ensures Route(kind, i1) == Input ==> r == InputResult(o1, line)
      ensures kind == INTERRUPT_USER && IsFileCall(i1) ==>
        if filesys == null then r == ERROR_BAD_ARGUMENT
        else (r, StateOf(filesys)) == FileCall(old(StateOf(filesys)), filesys.disk.diskSize, i1, o1, Bytes(a))
      ensures Route(kind, i1) == Exec ==> ExecDone(o1, o2, r)
      ensures Route(kind, i1) == Join ==>
        && (i2 !in old(procs.pidMap) ==> r == ERROR_NO_SUCH_PROCESS)
        && (i2 in old(procs.pidMap) ==> r == old(procs.pidMap[i2].returnCode))
        && procs.pidMap == old(procs.pidMap) - {i2}
      ensures Route(kind, i1) == PowerOn ==>
        && cacheSize == i1
        && (r == 0 <==> o1.Device? && !MountFaults(o1.d.Image(), o1.d.diskSize) && (o2.Null? || o2.Str?))
        && (r != 0 ==> r == ERROR_BAD_ARGUMENT)
        && (o1.Device? ==> disk == o1.d && o1.d.Image() == old(o1.d.Image()))
        && (o1.Null? ==> disk == null)
        && (!o1.Device? && !o1.Null? ==> disk == old(disk))
        && (o1.Device? && !MountFaults(o1.d.Image(), o1.d.diskSize) ==>
             && filesys != null && fresh(filesys) && filesys.disk == o1.d
             && filesys.fileTable[..] == MountedTable(o1.d.Image(), o1.d.diskSize))
        && (!(o1.Device? && !MountFaults(o1.d.Image(), o1.d.diskSize)) ==> filesys == old(filesys))
      ensures Route(kind, i1) != Exec && Route(kind, i1) != Join ==>
        procs.pidMap == old(procs.pidMap) && procs.nextpid == old(procs.nextpid)
      ensures !(kind == INTERRUPT_USER && IsFileCall(i1)) && Route(kind, i1) != PowerOn && filesys != null ==>
        StateOf(filesys) == old(StateOf(filesys))
    {
      if kind == INTERRUPT_USER {
        r := UserCall(i1, i2, o1, o2, a, line);
      } else if kind == INTERRUPT_DISK {
        r := 0;
      } else if kind == INTERRUPT_POWER_ON {
        r := DoPowerOn(i1, o1, o2);
      } else {
        r := ERROR_BAD_ARGUMENT;
      }
    }

    /** The INTERRUPT_USER cases of interrupt: the switch on the system-call
        number i1. It leaves the kernel's own fields alone. */
    method UserCall(i1: int, i2: int, o1: Obj, o2: Obj, a: array?<byte>, line: Option<string>)
      returns (r: int)
      requires Valid()
      requires filesys != null ==> a != filesys.disk.data
      modifies procs
      modifies if filesys == null then {} else {filesys.disk, filesys.disk.data, filesys.fileTable}
      ensures Valid()
      ensures !(SYSCALL_OUTPUT <= i1 <= SYSCALL_GET_BLOCK_SIZE) ==> r == ERROR_BAD_ARGUMENT
      ensures i1 == SYSCALL_OUTPUT ==> r == (if o1.Null? || o1.Str? then 0 else ERROR_BAD_ARGUMENT)
      ensures i1 == SYSCALL_INPUT ==> r == InputResult(o1, line)
      ensures IsFileCall(i1) ==>
        if filesys == null then r == ERROR_BAD_ARGUMENT
        else (r, StateOf(filesys)) == FileCall(old(StateOf(filesys)), filesys.disk.diskSize, i1, o1, Bytes(a))
      ensures i1 == SYSCALL_EXEC ==> ExecDone(o1, o2, r)
      ensures i1 == SYSCALL_JOIN ==>
        && (i2 !in old(procs.pidMap) ==> r == ERROR_NO_SUCH_PROCESS)
        && (i2 in old(procs.pidMap) ==> r == old(procs.pidMap[i2].returnCode))
        && procs.pidMap == old(procs.pidMap) - {i2}
      ensures i1 != SYSCALL_EXEC && i1 != SYSCALL_JOIN ==>
        procs.pidMap == old(procs.pidMap) && procs.nextpid == old(procs.nextpid)
      ensures !IsFileCall(i1) && filesys != null ==> StateOf(filesys) == old(StateOf(filesys))
    {
      if i1 == SYSCALL_OUTPUT {
        r := if o1.Null? || o1.Str? then 0 else ERROR_BAD_ARGUMENT;
      } else if i1 == SYSCALL_INPUT {
        r := InputResult(o1, line);
      } else if i1 == SYSCALL_EXEC {
        r := ExecCall(o1, o2);
      } else if i1 == SYSCALL_JOIN {
        r := DoJoin(procs, i2);
      } else if IsFileCall(i1) && filesys != null {
        r := FileSyscall(filesys, i1, o1, a);
      } else {
        r := ERROR_BAD_ARGUMENT;
      }
    }
  }

  /** The value of the exec case of interrupt, given the next process id: a
      failed cast of o1 to String or of o2 to String[] throws, then doExec
      reports a null command, an unknown class and a class without main, in
      that order; otherwise the new process gets the next id. */
  function ExecResult(o1: Obj, o2: Obj, registry: Registry, nextpid: int): (r: int)
    requires 1 <= nextpid
    ensures 1 <= r <==> o1.Str? && (o2.Null? || o2.Strs?) && o1.s in registry && registry[o1.s]
    ensures 1 <= r ==> r == nextpid
    ensures !(o1.Null? || o1.Str?) || !(o2.Null? || o2.Strs?) ==> r == ERROR_BAD_ARGUMENT
    ensures (o2.Null? || o2.Strs?) && o1.Null? ==> r == ERROR_BAD_COMMAND
    ensures (o2.Null? || o2.Strs?) && o1.Str? && o1.s !in registry ==> r == ERROR_NO_CLASS
    ensures (o2.Null? || o2.Strs?) && o1.Str? && o1.s in registry && !registry[o1.s] ==> r == ERROR_NO_MAIN
  {
    if !(o1.Null? || o1.Str?) || !(o2.Null? || o2.Strs?) then ERROR_BAD_ARGUMENT
    else if o1.Null? then ExecError(NullCommand)
    else if o1.s !in registry then ExecError(ClassNotFound)
    else if !registry[o1.s] then ExecError(NoSuchMethod)
    else nextpid
  }

  /** doInput((StringBuffer) o1) given the console's next line: a wrong
      object type or a null buffer throws, the end of input is reported. */
  function InputResult(o1: Obj, line: Option<string>): (r: int)
    ensures r == 0 <==> o1.Buffer? && line.Some?
    ensures r == ERROR_END_OF_FILE <==> (o1.Null? || o1.Buffer?) && line.None?
  {
    if !(o1.Null? || o1.Buffer?) then ERROR_BAD_ARGUMENT
    else if line.None? then ERROR_END_OF_FILE
    else if o1.Null? then ERROR_BAD_ARGUMENT
    else 0
  }
}
