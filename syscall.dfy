/** The system-call handler of src/userprog/syscall.c: it validates the
    call number and the argument words on the user stack, dispatches to the
    fourteen calls through the two switches of `syscall_handler`, and writes
    `eax` for the calls that return a value.  `Step` is the reference
    definition of one trap on values; `Dispatch` performs it in place on the
    interrupt frame, the process and the thread registry. */
module Syscall {
  import opened Base
  import opened UserMemory
  import opened Descriptors
  import opened Lifecycle

  // ------------------------------------------------------------ numbers

  /** The calls the handler knows. */
  datatype Call =
    | Halt | Exit | Exec | Wait | Create | Remove | Open
    | Filesize | Read | Write | Seek | Tell | Close | Practice

  /** The call numbers of `lib/syscall-nr.h`. */
  function Number(c: Call): (n: int)
    ensures 0 <= n <= 13
  {
    match c
    case Halt => 0
    case Exit => 1
    case Exec => 2
    case Wait => 3
    case Create => 4
    case Remove => 5
    case Open => 6
    case Filesize => 7
    case Read => 8
    case Write => 9
    case Seek => 10
    case Tell => 11
    case Close => 12
    case Practice => 13
  }

  /** The `case` labels of the two switches: which call a number selects. */
  function Decode(n: int): (c: Option<Call>)
    ensures c.Some? ==> Number(c.value) == n
    ensures c.None? <==> !(0 <= n <= 13)
  {
    if n == 0 then Some(Halt)
    else if n == 1 then Some(Exit)
    else if n == 2 then Some(Exec)
    else if n == 3 then Some(Wait)
    else if n == 4 then Some(Create)
    else if n == 5 then Some(Remove)
    else if n == 6 then Some(Open)
    else if n == 7 then Some(Filesize)
    else if n == 8 then Some(Read)
    else if n == 9 then Some(Write)
    else if n == 10 then Some(Seek)
    else if n == 11 then Some(Tell)
    else if n == 12 then Some(Close)
    else if n == 13 then Some(Practice)
    else None
  }

  /** Every call is selected by its own number and by no other. */
  lemma DecodeNumber(c: Call, n: int)
    ensures Decode(n) == Some(c) <==> n == Number(c)
  {
    if n == Number(c) {
      match c
      case Halt =>
      case Exit =>
      case Exec =>
      case Wait =>
      case Create =>
      case Remove =>
      case Open =>
      case Filesize =>
      case Read =>
      case Write =>
      case Seek =>
      case Tell =>
      case Close =>
      case Practice =>
    }
  }

  /** How many argument words after the number each case validates with
      `check_num32` (lines 43-110). */
  function Arity(c: Call): (n: nat)
    ensures n <= 3
  {
    match c
    case Halt => 0
    case Create | Seek => 2
    case Read | Write => 3
    case _ => 1
  }

  /** Which argument (1-based) is walked by `check_str` before use: the
      command line of `exec` (line 56), the file name of `create`, `remove`
      and `open` (lines 207, 216, 227) and the buffer of `read` and `write`
      (lines 267, 296). */
  function StringArg(c: Call): (j: Option<nat>)
    ensures j.Some? ==> 1 <= j.value <= Arity(c)
  {
    match c
    case Exec | Create | Remove | Open => Some(1)
    case Read | Write => Some(2)
    case _ => None
  }

  /** The cases that assign `f->eax`. */
  predicate ReturnsValue(c: Call) {
    !(c.Halt? || c.Exit? || c.Seek? || c.Close?)
  }

  /** The calls of the first switch (lines 42-65); the rest belong to the
      second (lines 68-113). */
  predicate IsProcessCall(c: Call) {
    c.Practice? || c.Halt? || c.Exit? || c.Exec? || c.Wait?
  }

  // --------------------------------------------------------- validation

  /** The user address of `args[k]`. */
  function ArgAddr(esp: nat, k: nat): nat {
    esp + WORD_BYTES * k
  }

  /** The words `args[1]` .. `args[n]` may all be read. */
  predicate ArgsValid(m: Memory, esp: nat, n: nat) {
    forall k :: 1 <= k <= n ==> WordValid(m, ArgAddr(esp, k))
  }

  /** `args[1]` .. `args[n]` once validated. */
  function Args(m: Memory, esp: nat, n: nat): (args: seq<nat>)
    requires ArgsValid(m, esp, n)
    ensures |args| == n
    ensures forall i :: 0 <= i < n ==> args[i] == ReadWord(m, ArgAddr(esp, i + 1)) && IsWord(args[i])
  {
    if n == 0 then [] else Args(m, esp, n - 1) + [ReadWord(m, ArgAddr(esp, n))]
  }

  /** The `check_num32(args + 1)` .. `check_num32(args + n)` calls of a
      case, in the order the code makes them; false stands for the
      `sys_exit(-1)` of the first failing one. */
  method CheckArgs(m: Memory, esp: nat, n: nat) returns (ok: bool)
    requires n <= 3
    ensures ok <==> ArgsValid(m, esp, n)
  {
    ghost var probed: set<nat>;
    if n >= 1 {
      ok, probed := CheckNum32(m, ArgAddr(esp, 1));
      if !ok {
        return;
      }
    }
    if n >= 2 {
      ok, probed := CheckNum32(m, ArgAddr(esp, 2));
      if !ok {
        return;
      }
    }
    if n >= 3 {
      ok, probed := CheckNum32(m, ArgAddr(esp, 3));
      if !ok {
        return;
      }
    }
    forall k | 1 <= k <= n ensures WordValid(m, ArgAddr(esp, k)) {
      assert k == 1 || k == 2 || k == 3;
    }
    return true;
  }

  ghost predicate IsString(m: Memory, p: nat) {
    exists n :: CStrAt(m, p, n)
  }

  /** The checks of call `c` all succeed: its argument words may be read and
      its string argument, if it has one, is NUL-terminated in user memory. */
  ghost predicate Passes(m: Memory, esp: nat, c: Call) {
    && ArgsValid(m, esp, Arity(c))
    && (StringArg(c).Some? ==> IsString(m, Args(m, esp, Arity(c))[StringArg(c).value - 1]))
  }

  /** What the checks make of a trap: an unknown number (both switches
      take their `default`), a rejected one (some `check_num32` or
      `check_str` ends the process with -1), or an admitted call with its
      argument words and the bytes of its string argument. */
  datatype Admission = Unknown | Rejected | Admitted(call: Call, args: seq<nat>, text: seq<Byte>)

  function Admit(m: Memory, esp: nat): (a: Admission)
    ensures a.Unknown? <==> WordValid(m, esp) && Decode(ReadWord(m, esp)).None?
    ensures a.Admitted? ==>
      && WordValid(m, esp)
      && Decode(ReadWord(m, esp)) == Some(a.call)
      && ArgsValid(m, esp, Arity(a.call))
      && a.args == Args(m, esp, Arity(a.call))
    ensures a.Admitted? && StringArg(a.call).None? ==> a.text == []
    ensures a.Admitted? && StringArg(a.call).Some? ==>
      CStrAt(m, a.args[StringArg(a.call).value - 1], |a.text|)
    ensures a.Rejected? <==>
      || !WordValid(m, esp)
      || (Decode(ReadWord(m, esp)).Some? && !Passes(m, esp, Decode(ReadWord(m, esp)).value))
  {
    if !WordValid(m, esp) then Rejected
    else match Decode(ReadWord(m, esp))
      case None => Unknown
      case Some(c) =>
        if !ArgsValid(m, esp, Arity(c)) then Rejected
        else
          var args := Args(m, esp, Arity(c));
          match StringArg(c)
          case None => Admitted(c, args, [])
          case Some(j) =>
            match CStrLen(m, args[j - 1])
            case None => Rejected
            case Some(n) => Admitted(c, args, StringAt(m, args[j - 1], n))
  }

  // -------------------------------------------------------------- state

  /** `sys_practice` (line 116): `i + 1` on a C `int`, wrapping at the top. */
  function SysPractice(i: int): (r: int)
    requires IsInt32(i)
    ensures IsInt32(r)
    ensures i < INT32_MAX ==> r == i + 1
    ensures i == INT32_MAX ==> r == INT32_MIN
  {
    ToInt32(ToWord(i + 1))
  }

  /** What the file system and the loader answer, one function per
      primitive, fixed for the duration of one trap. */
  datatype Storage = Storage(
    open: seq<Byte> -> Option<File>,
    create: (seq<Byte>, nat) -> bool,
    remove: seq<Byte> -> bool,
    length: File -> int,
    position: File -> int,
    read: (File, nat) -> seq<Byte>,
    write: (File, nat) -> int,
    spawn: seq<Byte> -> SpawnReply)

  /** What became of the calling thread. */
  datatype Outcome =
    | Resumed          // back to user mode
    | Exited(status: int)
    | Halted           // `shutdown_power_off`
    | Blocked          // asleep on a child's semaphore in `sys_wait`

  /** The file operations that change storage and are not otherwise
      modelled, as the handler issues them. */
  datatype Request =
    | NoRequest
    | SeekTo(file: File, position: nat)
    | CloseFile(file: File)
    | CloseFiles(files: seq<File>)

  /** Everything one trap can change. */
  datatype Machine = Machine(eax: int, mem: Memory, fds: FdTable, threads: map<Tid, Thread>, nextTid: int)

  ghost predicate MachineValid(s: Machine) {
    TableValid(s.fds) && RegistryValid(s.threads, s.nextTid)
  }

  /** `sys_exit(status)` (lines 120-161): the registry as `ExitThreads`
      leaves it with the caller gone, the table emptied, every file closed. */
  function ExitStep(s: Machine, cur: Tid, status: int): (r: (Machine, Outcome, Request))
    requires cur in s.threads
    ensures r.1 == Exited(status) && r.0.eax == s.eax && r.0.mem == s.mem
    ensures cur !in r.0.threads && r.0.fds.list == [] && r.2 == CloseFiles(FilesOf(s.fds.list))
  {
    (s.(fds := FdTable([], s.fds.next), threads := ExitThreads(s.threads, cur, status) - {cur}),
     Exited(status), CloseFiles(FilesOf(s.fds.list)))
  }

  /** The first switch (lines 42-65). */
  function ProcessCall(s: Machine, cur: Tid, c: Call, args: seq<nat>, text: seq<Byte>, st: Storage): (r: (Machine, Outcome, Request))
    requires cur in s.threads && IsProcessCall(c) && |args| == Arity(c)
    requires forall i :: 0 <= i < |args| ==> IsWord(args[i])
    ensures r.0.mem == s.mem
    ensures r.0.eax != s.eax ==> ReturnsValue(c) && r.1 == Resumed
    ensures IsWord(s.eax) ==> IsWord(r.0.eax)
    ensures !r.1.Exited? ==> r.0.fds == s.fds && cur in r.0.threads
    ensures r.1.Exited? ==> c == Exit
  {
    match c
    case Practice => (s.(eax := ToWord(SysPractice(ToInt32(args[0])))), Resumed, NoRequest)
    case Halt => (s, Halted, NoRequest)
    case Exit => ExitStep(s, cur, ToInt32(args[0]))
    case Exec =>
      var (ts, n, pid) := ExecOn(s.threads, s.nextTid, cur, st.spawn(text));
      (s.(threads := ts, nextTid := n, eax := ToWord(pid)), Resumed, NoRequest)
    case Wait =>
      var (ts, w) := WaitOn(s.threads, cur, ToInt32(args[0]));
      match w
      case Blocks => (s, Blocked, NoRequest)
      case Status(v) => (s.(threads := ts, eax := ToWord(v)), Resumed, NoRequest)
  }

  /** The second switch (lines 68-113). */
  function FileCall(s: Machine, cur: Tid, c: Call, args: seq<nat>, text: seq<Byte>, st: Storage): (r: (Machine, Outcome, Request))
    requires cur in s.threads && !IsProcessCall(c) && |args| == Arity(c)
    requires forall i :: 0 <= i < |args| ==> IsWord(args[i])
    ensures r.0.eax != s.eax ==> ReturnsValue(c) && r.1 == Resumed
    ensures IsWord(s.eax) ==> IsWord(r.0.eax)
    ensures r.1 == Resumed || r.1 == Exited(-1)
    ensures r.1 == Resumed ==> r.0.threads == s.threads && r.0.nextTid == s.nextTid
    ensures r.1.Exited? ==> c == Write && r == ExitStep(s, cur, -1)
    ensures r.0.mem.writable == s.mem.writable
    ensures forall a :: a in s.mem.bytes ==> a in r.0.mem.bytes
    ensures forall a :: a in r.0.mem.bytes && !(a in s.mem.bytes && r.0.mem.bytes[a] == s.mem.bytes[a]) ==> Storable(s.mem, a)
    ensures r.0.mem != s.mem ==> c == Read
  {
    match c
    case Create => (s.(eax := if st.create(text, args[1]) then 1 else 0), Resumed, NoRequest)
    case Remove => (s.(eax := if st.remove(text) then 1 else 0), Resumed, NoRequest)
    case Open =>
      var (t, fd) := OpenOn(s.fds, st.open(text));
      (s.(fds := t, eax := ToWord(fd)), Resumed, NoRequest)
    case Filesize =>
      var len := match FileOf(s.fds.list, ToInt32(args[0]))
        case None => -1
        case Some(h) => st.length(h);
      (s.(eax := ToWord(len)), Resumed, NoRequest)
    case Read =>
      (match FileOf(s.fds.list, ToInt32(args[0]))
       case None => (s.(eax := ToWord(-1)), Resumed, NoRequest)
       case Some(h) =>
         var (n, m) := CopyOut(s.mem, args[1], Delivered(st.read(h, args[2]), args[2]), 0);
         (s.(mem := m, eax := ToWord(n)), Resumed, NoRequest))
    case Write =>
      var fd := ToInt32(args[0]);
      if fd == 0 then ExitStep(s, cur, -1)
      else if fd == 1 then (s.(eax := ToWord(|text|)), Resumed, NoRequest)
      else
        var n := match FileOf(s.fds.list, fd)
          case None => -1
          case Some(h) => st.write(h, args[2]);
        (s.(eax := ToWord(n)), Resumed, NoRequest)
    case Seek =>
      var req := match FileOf(s.fds.list, ToInt32(args[0]))
        case None => NoRequest
        case Some(h) => SeekTo(h, args[1]);
      (s, Resumed, req)
    case Tell =>
      var pos := match FileOf(s.fds.list, ToInt32(args[0]))
        case None => -1
        case Some(h) => st.position(h);
      (s.(eax := ToWord(pos)), Resumed, NoRequest)
    case Close =>
      var (t, h) := CloseOn(s.fds, ToInt32(args[0]));
      (s.(fds := t), Resumed, if h.Some? then CloseFile(h.value) else NoRequest)
  }

  /** One trap into `syscall_handler` (lines 27-114). */
  function Step(s: Machine, esp: nat, cur: Tid, st: Storage): (r: (Machine, Outcome, Request))
    requires cur in s.threads
  {
    match Admit(s.mem, esp)
    case Unknown => (s, Resumed, NoRequest)
    case Rejected => ExitStep(s, cur, -1)
    case Admitted(c, args, text) =>
      if IsProcessCall(c) then ProcessCall(s, cur, c, args, text, st)
      else FileCall(s, cur, c, args, text, st)
  }

  // ------------------------------------------------------------ lemmas

  /** A trap that is not a valid call leaves everything as it was when the
      number is unknown, and ends the caller with status -1 otherwise. */
  lemma StepOnBadTrap(s: Machine, esp: nat, cur: Tid, st: Storage)
    requires cur in s.threads
    ensures Admit(s.mem, esp).Unknown? ==> Step(s, esp, cur, st) == (s, Resumed, NoRequest)
    ensures Admit(s.mem, esp).Rejected? ==>
      && Step(s, esp, cur, st).1 == Exited(-1)
      && Step(s, esp, cur, st).0.eax == s.eax
      && cur !in Step(s, esp, cur, st).0.threads
  {
  }

  /** `eax` changes only on a call that returns a value and only when the
      caller resumes. */
  lemma StepWritesEaxOnlyForValues(s: Machine, esp: nat, cur: Tid, st: Storage)
    requires cur in s.threads
    ensures var r := Step(s, esp, cur, st);
      r.0.eax != s.eax ==>
        && Admit(s.mem, esp).Admitted?
        && ReturnsValue(Admit(s.mem, esp).call)
        && r.1 == Resumed
  {
  }

  /** Every result written to `eax` is a 32-bit word. */
  lemma StepEaxIsWord(s: Machine, esp: nat, cur: Tid, st: Storage)
    requires cur in s.threads && IsWord(s.eax)
    ensures IsWord(Step(s, esp, cur, st).0.eax)
  {
  }

  /** The kernel writes user memory only through `read`, and only bytes a
      user store could reach: below the split and writable. */
  lemma StepStoresOnlyUserMemory(s: Machine, esp: nat, cur: Tid, st: Storage)
    requires cur in s.threads
    ensures var m := Step(s, esp, cur, st).0.mem;
      && m.writable == s.mem.writable
      && (forall a :: a in s.mem.bytes ==> a in m.bytes)
      && (forall a :: a in m.bytes && !(a in s.mem.bytes && m.bytes[a] == s.mem.bytes[a]) ==> Storable(s.mem, a))
      && (m != s.mem ==> Admit(s.mem, esp).Admitted? && Admit(s.mem, esp).call == Read)
  {
  }

  /** `write` to descriptor 0 ends the caller with -1; to descriptor 1 it
      returns the length of the NUL-terminated buffer and touches neither
      the table nor storage. */
  lemma StepWriteStdio(s: Machine, esp: nat, cur: Tid, st: Storage)
    requires cur in s.threads
    requires Admit(s.mem, esp).Admitted? && Admit(s.mem, esp).call == Write
    ensures var a := Admit(s.mem, esp);
      var r := Step(s, esp, cur, st);
      && (ToInt32(a.args[0]) == 0 ==> r.1 == Exited(-1) && cur !in r.0.threads)
      && (ToInt32(a.args[0]) == 1 ==>
            r == (s.(eax := |a.text|), Resumed, NoRequest) && CStrAt(s.mem, a.args[1], |a.text|))
  {
  }

  /** A descriptor the table does not hold makes a file call fail with -1
      (or do nothing, for the calls without a result), never end the caller. */
  lemma StepUnknownFd(s: Machine, esp: nat, cur: Tid, st: Storage)
    requires cur in s.threads
    requires var a := Admit(s.mem, esp);
      && a.Admitted?
      && (a.call.Filesize? || a.call.Read? || a.call.Write? || a.call.Seek? || a.call.Tell? || a.call.Close?)
      && FileOf(s.fds.list, ToInt32(a.args[0])).None?
      && ToInt32(a.args[0]) != 0 && ToInt32(a.args[0]) != 1
    ensures var c := Admit(s.mem, esp).call;
      Step(s, esp, cur, st) == (if ReturnsValue(c) then s.(eax := ToWord(-1)) else s, Resumed, NoRequest)
  {
    var a := Admit(s.mem, esp);
    FileCallUnknownFd(s, cur, a.call, a.args, a.text, st);
  }

  /** The descriptor cases of the second switch on a descriptor the table
      does not hold. */
  lemma FileCallUnknownFd(s: Machine, cur: Tid, c: Call, args: seq<nat>, text: seq<Byte>, st: Storage)
    requires cur in s.threads && |args| == Arity(c) && forall i :: 0 <= i < |args| ==> IsWord(args[i])
    requires c.Filesize? || c.Read? || c.Write? || c.Seek? || c.Tell? || c.Close?
    requires FileOf(s.fds.list, ToInt32(args[0])).None?
    requires ToInt32(args[0]) != 0 && ToInt32(args[0]) != 1
    ensures FileCall(s, cur, c, args, text, st) == (if ReturnsValue(c) then s.(eax := ToWord(-1)) else s, Resumed, NoRequest)
  {
    var fd := ToInt32(args[0]);
    assert FindFd(s.fds.list, fd).None?;
  }

  /** A trap keeps the descriptor table and the registry consistent; the
      caller is gone from the registry exactly when it exited, and then its
      table is empty. */
  lemma StepKeepsValid(s: Machine, esp: nat, cur: Tid, st: Storage)
    requires MachineValid(s) && cur in s.threads
    ensures var r := Step(s, esp, cur, st);
      && MachineValid(r.0)
      && (cur in r.0.threads <==> !r.1.Exited?)
      && (r.1.Exited? ==> r.0.fds.list == [] && r.2 == CloseFiles(FilesOf(s.fds.list)))
  {
    match Admit(s.mem, esp)
    case Unknown =>
    case Rejected =>
      ExitKeepsValid(s.threads, s.nextTid, cur, -1);
    case Admitted(c, args, text) =>
      if IsProcessCall(c) {
        ProcessCallKeepsValid(s, cur, c, args, text, st);
      } else {
        FileCallKeepsValid(s, cur, c, args, text, st);
      }
  }

  lemma ProcessCallKeepsValid(s: Machine, cur: Tid, c: Call, args: seq<nat>, text: seq<Byte>, st: Storage)
    requires MachineValid(s) && cur in s.threads && IsProcessCall(c) && |args| == Arity(c)
    requires forall i :: 0 <= i < |args| ==> IsWord(args[i])
    ensures MachineValid(ProcessCall(s, cur, c, args, text, st).0)
  {
    match c
    case Exit =>
      ExitKeepsValid(s.threads, s.nextTid, cur, ToInt32(args[0]));
    case Exec =>
      ExecKeepsValid(s.threads, s.nextTid, cur, st.spawn(text));
    case Wait =>
      WaitKeepsValid(s.threads, s.nextTid, cur, ToInt32(args[0]));
    case _ =>
  }

  lemma FileCallKeepsValid(s: Machine, cur: Tid, c: Call, args: seq<nat>, text: seq<Byte>, st: Storage)
    requires MachineValid(s) && cur in s.threads && !IsProcessCall(c) && |args| == Arity(c)
    requires forall i :: 0 <= i < |args| ==> IsWord(args[i])
    ensures MachineValid(FileCall(s, cur, c, args, text, st).0)
  {
    if c == Write {
      ExitKeepsValid(s.threads, s.nextTid, cur, -1);
    }
  }

  // --------------------------------------------------------------- objects

  /** The interrupt frame: the user stack pointer the arguments sit at and
      the result register. */
  class IntrFrame {
    const esp: nat
    var eax: int

    constructor (esp: nat, eax: int)
      ensures this.esp == esp && this.eax == eax
    {
      this.esp := esp;
      this.eax := eax;
    }
  }

  function Snapshot(f: IntrFrame, p: Process, k: ThreadTable): Machine
    reads f, p, k
  {
    Machine(f.eax, p.mem, p.Table(), k.threads, k.nextTid)
  }

  /** `sys_exit` (lines 120-161): orphan the children and hand the status to
      the parent, close every descriptor, and leave the registry. */
  method SysExit(f: IntrFrame, p: Process, k: ThreadTable, cur: Tid, status: int) returns (out: Outcome, req: Request)
    requires p.Valid() && k.Valid() && cur in k.threads
    modifies p, k
    ensures p.Valid() && k.Valid()
    ensures (Snapshot(f, p, k), out, req) == ExitStep(old(Snapshot(f, p, k)), cur, status)
  {
    ExitKeepsValid(k.threads, k.nextTid, cur, status);
    k.Exit(cur, status);
    var closed := p.CloseAll();
    k.Destroy(cur);
    return Exited(status), CloseFiles(closed);
  }

  /** The first switch, in place. */
  method HandleProcessCall(f: IntrFrame, p: Process, k: ThreadTable, cur: Tid, c: Call, args: seq<nat>, text: seq<Byte>, st: Storage)
    returns (out: Outcome, req: Request)
    requires p.Valid() && k.Valid() && cur in k.threads
    requires IsProcessCall(c) && |args| == Arity(c) && forall i :: 0 <= i < |args| ==> IsWord(args[i])
    modifies f, p, k
    ensures p.Valid() && k.Valid()
    ensures (Snapshot(f, p, k), out, req) == ProcessCall(old(Snapshot(f, p, k)), cur, c, args, text, st)
  {
    req := NoRequest;
    match c
    case Practice =>
      f.eax := ToWord(SysPractice(ToInt32(args[0])));
      out := Resumed;
    case Halt =>
      out := Halted;
    case Exit =>
      out, req := SysExit(f, p, k, cur, ToInt32(args[0]));
    case Exec =>
      var pid := k.Exec(cur, st.spawn(text));
      f.eax := ToWord(pid);
      out := Resumed;
    case Wait =>
      var w := k.Wait(cur, ToInt32(args[0]));
      if w.Blocks? {
        out := Blocked;
      } else {
        f.eax := ToWord(w.value);
        out := Resumed;
      }
  }

  /** The second switch, in place. */
  method HandleFileCall(f: IntrFrame, p: Process, k: ThreadTable, cur: Tid, c: Call, args: seq<nat>, text: seq<Byte>, st: Storage)
    returns (out: Outcome, req: Request)
    requires p.Valid() && k.Valid() && cur in k.threads
    requires !IsProcessCall(c) && |args| == Arity(c) && forall i :: 0 <= i < |args| ==> IsWord(args[i])
    modifies f, p, k
    ensures p.Valid() && k.Valid()
    ensures (Snapshot(f, p, k), out, req) == FileCall(old(Snapshot(f, p, k)), cur, c, args, text, st)
  {
    if c == Write {
      out, req := HandleWrite(f, p, k, cur, args, text, st);
    } else {
      out, req := HandleFdCall(f, p, k, cur, c, args, text, st);
    }
  }

  /** `sys_write` (lines 295-318): descriptor 0 ends the caller with -1,
      descriptor 1 goes to the console, any other to its file. */
  method HandleWrite(f: IntrFrame, p: Process, k: ThreadTable, cur: Tid, args: seq<nat>, text: seq<Byte>, st: Storage)
    returns (out: Outcome, req: Request)
    requires p.Valid() && k.Valid() && cur in k.threads
    requires |args| == Arity(Write) && forall i :: 0 <= i < |args| ==> IsWord(args[i])
    modifies f, p, k
    ensures p.Valid() && k.Valid()
    ensures (Snapshot(f, p, k), out, req) == FileCall(old(Snapshot(f, p, k)), cur, Write, args, text, st)
  {
    out, req := Resumed, NoRequest;
    var fd := ToInt32(args[0]);
    if fd == 0 {
      out, req := SysExit(f, p, k, cur, -1);
    } else if fd == 1 {
      f.eax := ToWord(|text|);
    } else {
      var n := p.WriteFile(fd, args[2], st.write);
      f.eax := ToWord(n);
    }
  }

  /** The calls of the second switch that touch only the caller's frame and
      descriptor table. */
  method HandleFdCall(f: IntrFrame, p: Process, k: ThreadTable, cur: Tid, c: Call, args: seq<nat>, text: seq<Byte>, st: Storage)
    returns (out: Outcome, req: Request)
    requires p.Valid() && k.Valid() && cur in k.threads
    requires !IsProcessCall(c) && c != Write && |args| == Arity(c) && forall i :: 0 <= i < |args| ==> IsWord(args[i])
    modifies f, p
    ensures p.Valid()
    ensures (Snapshot(f, p, k), out, req) == FileCall(old(Snapshot(f, p, k)), cur, c, args, text, st)
  {
    out, req := Resumed, NoRequest;
    match c
    case Create =>
      f.eax := if st.create(text, args[1]) then 1 else 0;
    case Remove =>
      f.eax := if st.remove(text) then 1 else 0;
    case Open =>
      var fd := p.Open(st.open(text));
      f.eax := ToWord(fd);
    case Filesize =>
      var n := p.Filesize(ToInt32(args[0]), st.length);
      f.eax := ToWord(n);
    case Read =>
      var n := p.Read(ToInt32(args[0]), args[1], args[2], st.read);
      f.eax := ToWord(n);
    case Seek =>
      var h := p.Seek(ToInt32(args[0]));
      if h.Some? {
        req := SeekTo(h.value, args[1]);
      }
    case Tell =>
      var pos := p.Tell(ToInt32(args[0]), st.position);
      f.eax := pos;
    case Close =>
      var h := p.Close(ToInt32(args[0]));
      if h.Some? {
        req := CloseFile(h.value);
      }
  }

  /** The checks of `syscall_handler` and of the handlers it calls, in
      their order: `check_num32(args)`, the number, `check_num32` of each
      argument word, then `check_str` of the string argument. */
  method Validate(m: Memory, esp: nat) returns (a: Admission)
    ensures a == Admit(m, esp)
  {
    var ok: bool;
    ghost var probed: set<nat>;
    ok, probed := CheckNum32(m, esp);
    if !ok {
      return Rejected;
    }
    var c := Decode(ReadWord(m, esp));
    if c.None? {
      return Unknown;
    }
    var call := c.value;
    ok := CheckArgs(m, esp, Arity(call));
    if !ok {
      return Rejected;
    }
    var args := Args(m, esp, Arity(call));
    var text: seq<Byte> := [];
    if StringArg(call).Some? {
      var ptr := args[StringArg(call).value - 1];
      ok, probed := CheckStr(m, ptr);
      if !ok {
        return Rejected;
      }
      var n := CStrLen(m, ptr).value;
      text := StringAt(m, ptr, n);
    }
    return Admitted(call, args, text);
  }

  /** `syscall_handler` (lines 27-114): validate the trap, then run the
      call, or end the caller with -1 when a check fails. */
  method Dispatch(f: IntrFrame, p: Process, k: ThreadTable, cur: Tid, st: Storage) returns (out: Outcome, req: Request)
    requires p.Valid() && k.Valid() && cur in k.threads
    modifies f, p, k
    ensures p.Valid() && k.Valid()
    ensures (Snapshot(f, p, k), out, req) == Step(old(Snapshot(f, p, k)), f.esp, cur, st)
  {
    var a := Validate(p.mem, f.esp);
    match a
    case Unknown =>
      out, req := Resumed, NoRequest;
    case Rejected =>
      out, req := SysExit(f, p, k, cur, -1);
    case Admitted(call, args, text) =>
      if IsProcessCall(call) {
        out, req := HandleProcessCall(f, p, k, cur, call, args, text, st);
      } else {
        out, req := HandleFileCall(f, p, k, cur, call, args, text, st);
      }
  }
}
