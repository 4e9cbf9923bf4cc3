/** The kernel's process table: every Launcher takes the next process id
    from a counter and registers itself under it in pidMap; joinOne and
    delete take entries out again. The thread a Launcher runs on is not
    modelled: running the program is one step that records how it ended. */
module Processes {
  import opened JavaTypes
  import opened KernelCodes

  /** What reflection finds for a command name: a class with a
      main(String[]) method (true) or a class without one (false). A name
      the map lacks names no class. */
  type Registry = map<string, bool>

  /** Why new Launcher(command, args) throws. */
  datatype LaunchError = NullCommand | ClassNotFound | NoSuchMethod

  /** The static state of Launcher: pidMap and nextpid. */
  class ProcessTable {
    var pidMap: map<int, Launcher>
    var nextpid: int

    /** Every registered id was handed out before, so it lies below the
        counter, and it is the id of the launcher registered under it. */
    ghost predicate Valid()
      reads this
    {
      && 1 <= nextpid
      && forall p :: p in pidMap ==> 1 <= p < nextpid && pidMap[p].pid == p
    }

    /** The table at class-load time: empty, counter at 1. */
    constructor ()
      ensures Valid() && pidMap == map[] && nextpid == 1
    {
      pidMap := map[];
      nextpid := 1;
    }

    /** joinOne(pid): the process leaves the table and its return code is
        handed back; an id not in the table gives ERROR_NO_SUCH_PROCESS. */
    method JoinOne(pid: int) returns (code: int)
      requires Valid()
      modifies this`pidMap
      ensures Valid()
      ensures pid !in old(pidMap) ==> code == ERROR_NO_SUCH_PROCESS && pidMap == old(pidMap)
      ensures pid in old(pidMap) ==> code == old(pidMap[pid].returnCode) && pidMap == old(pidMap) - {pid}
    {
      if pid !in pidMap {
        return ERROR_NO_SUCH_PROCESS;
      }
      var l := pidMap[pid];
      pidMap := pidMap - {pid};
      code := l.returnCode;
    }
  }

  class Launcher {
    const pid: int
    const command: string
    const args: seq<string>
    /** 0 until the program ends with an uncaught exception. */
    var returnCode: int

    /** The part of new Launcher(command, args) after the program and its
        main method were found: take the next id and register. */
    constructor (table: ProcessTable, command: string, args: seq<string>)
      requires table.Valid()
      modifies table
      ensures table.Valid()
      ensures pid == old(table.nextpid) && table.nextpid == old(table.nextpid) + 1
      ensures table.pidMap == old(table.pidMap)[pid := this]
      ensures this.command == command && this.args == args && returnCode == 0
    {
      pid := table.nextpid;
      this.command := command;
      this.args := args;
      returnCode := 0;
      new;
      table.nextpid := table.nextpid + 1;
      table.pidMap := table.pidMap[pid := this];
    }

    /** new Launcher(command, args), with null for the exception it throws:
        a null args becomes the empty array; a null command, an unknown class
        and a class without main(String[]) throw before an id is taken. */
    static method Create(table: ProcessTable, command: Option<string>, args: Option<seq<string>>, registry: Registry)
      returns (l: Launcher?, err: Option<LaunchError>)
      requires table.Valid()
      modifies table
      ensures table.Valid()
      ensures l == null <==> err.Some?
      ensures err == Some(NullCommand) <==> command.None?
      ensures err == Some(ClassNotFound) <==> command.Some? && command.value !in registry
      ensures err == Some(NoSuchMethod) <==> command.Some? && command.value in registry && !registry[command.value]
      ensures l == null ==> table.pidMap == old(table.pidMap) && table.nextpid == old(table.nextpid)
      ensures l != null ==>
        && fresh(l) && l.pid == old(table.nextpid) && l.pid !in old(table.pidMap)
        && table.nextpid == old(table.nextpid) + 1
        && table.pidMap == old(table.pidMap)[l.pid := l]
        && l.command == command.value && l.args == (if args.None? then [] else args.value)
        && l.returnCode == 0
    {
      var argv := if args.None? then [] else args.value;
      if command.None? {
        return null, Some(NullCommand);
      }
      if command.value !in registry {
        return null, Some(ClassNotFound);
      }
      if !registry[command.value] {
        return null, Some(NoSuchMethod);
      }
      l := new Launcher(table, command.value, argv);
      err := None;
    }

    /** run(): the program runs to its end; an exception escaping main makes
        the return code ERROR_IN_CHILD, a normal end leaves it as it was. */
    method Run(faulted: bool)
      modifies this`returnCode
      ensures returnCode == if faulted then ERROR_IN_CHILD else old(returnCode)
    {
      if faulted {
        returnCode := ERROR_IN_CHILD;
      }
    }

    /** delete(): remove this launcher's id from the table, and nothing else. */
    method Delete(table: ProcessTable)
      requires table.Valid()
      modifies table`pidMap
      ensures table.Valid()
      ensures table.pidMap == old(table.pidMap) - {pid}
    {
      table.pidMap := table.pidMap - {pid};
    }
  }

  /** The code doExec returns for each way new Launcher throws. */
  function ExecError(e: LaunchError): (code: int)
    ensures code < 0
    ensures e == NullCommand <==> code == ERROR_BAD_COMMAND
    ensures e == ClassNotFound <==> code == ERROR_NO_CLASS
    ensures e == NoSuchMethod <==> code == ERROR_NO_MAIN
  {
    match e
    case NullCommand => ERROR_BAD_COMMAND
    case ClassNotFound => ERROR_NO_CLASS
    case NoSuchMethod => ERROR_NO_MAIN
  }

  /** doExec(command, args): the new process id, or the error code of the
      launch failure, in which case the table is untouched. */
  method DoExec(table: ProcessTable, command: Option<string>, args: Option<seq<string>>, registry: Registry)
    returns (r: int)
    requires table.Valid()
    modifies table
    ensures table.Valid()
    ensures 1 <= r <==> command.Some? && command.value in registry && registry[command.value]
    ensures command.None? ==> r == ERROR_BAD_COMMAND
    ensures command.Some? && command.value !in registry ==> r == ERROR_NO_CLASS
    ensures command.Some? && command.value in registry && !registry[command.value] ==> r == ERROR_NO_MAIN
    ensures r < 1 ==> table.pidMap == old(table.pidMap) && table.nextpid == old(table.nextpid)
    ensures 1 <= r ==>
      && r == old(table.nextpid) && r !in old(table.pidMap) && table.nextpid == r + 1
      && r in table.pidMap && fresh(table.pidMap[r]) && table.pidMap[r].returnCode == 0
      && table.pidMap == old(table.pidMap)[r := table.pidMap[r]]
  {
    var l, err := Launcher.Create(table, command, args, registry);
    if l == null {
      return ExecError(err.value);
    }
    r := l.pid;
  }

  /** doJoin(pid). */
  method DoJoin(table: ProcessTable, pid: int) returns (r: int)
    requires table.Valid()
    modifies table`pidMap
    ensures table.Valid()
    ensures pid !in old(table.pidMap) ==> r == ERROR_NO_SUCH_PROCESS && table.pidMap == old(table.pidMap)
    ensures pid in old(table.pidMap) ==> r == old(table.pidMap[pid].returnCode) && table.pidMap == old(table.pidMap) - {pid}
  {
    r := table.JoinOne(pid);
  }

  /** Two successful launches get consecutive ids, neither of which was in
      use. */
  method ExecTwice(table: ProcessTable, c1: string, c2: string, registry: Registry) returns (p1: int, p2: int)
    requires table.Valid()
    requires c1 in registry && registry[c1] && c2 in registry && registry[c2]
    modifies table
    ensures table.Valid()
    ensures p1 == old(table.nextpid) && p2 == p1 + 1
    ensures p1 !in old(table.pidMap) && p2 !in old(table.pidMap)
    ensures p1 in table.pidMap && p2 in table.pidMap
  {
    p1 := DoExec(table, Some(c1), None, registry);
    p2 := DoExec(table, Some(c2), None, registry);
  }

  /** A process that ran to its end is joined once: its code comes back
      (0, or ERROR_IN_CHILD after a fault), and a second join of the same id
      finds nothing. */
  method ExecRunJoinTwice(table: ProcessTable, c: string, registry: Registry, faulted: bool)
    returns (pid: int, first: int, second: int)
    requires table.Valid() && c in registry && registry[c]
    modifies table
    ensures table.Valid()
    ensures first == if faulted then ERROR_IN_CHILD else 0
    ensures second == ERROR_NO_SUCH_PROCESS
    ensures table.pidMap == old(table.pidMap)
  {
    pid := DoExec(table, Some(c), None, registry);
    var l := table.pidMap[pid];
    l.Run(faulted);
    first := DoJoin(table, pid);
    second := DoJoin(table, pid);
  }

  /** delete takes out its own id only: other registered processes stay. */
  method DeleteKeepsOthers(table: ProcessTable, l: Launcher, other: int)
    requires table.Valid() && other != l.pid && other in table.pidMap
    modifies table`pidMap
    ensures table.Valid()
    ensures other in table.pidMap && table.pidMap[other] == old(table.pidMap[other])
    ensures l.pid !in table.pidMap
  {
    l.Delete(table);
  }
}
