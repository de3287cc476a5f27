# Pintos system-call layer, modelled in Dafny

This project models the user-program system-call layer of a Pintos kernel,
`src/userprog/syscall.c`, and proves properties of the model.  The layer
sits between a user process and the kernel.  On every trap it:

- validates the call number and each argument word on the user stack, byte by
  byte, against the kernel/user split `PHYS_BASE` with a fault-tolerant probe
  (`check_num32`, `check_str`, `get_user`, `put_user`);
- dispatches through two `switch` statements to fourteen calls;
- writes the result register `eax` only for the calls that return a value.

It also keeps two pieces of per-thread state:

- the per-process **descriptor table**, used by `open`, `close`, `filesize`,
  `seek`, `tell`, `read`, `write` and the teardown in `exit`;
- the **child-status records**, through which `exec`, `wait` and `exit` hand
  a child's exit status to its parent exactly once.

Files (one module each):

- `base.dfy` (`Base`): options, bytes, 32-bit words and the C `int` view of a
  word, the first-match list walk `FindKey`, and `list_remove` as
  `RemoveAt`.
- `user_memory.dfy` (`UserMemory`): the user address space as mapped and
  writable byte sets, the probes, and the word and string checks.
  - `CheckNum32` and `CheckStr` are the loops of the source.
  - `GetUser` and `PutUser` may only be called on addresses below
    `PHYS_BASE`. The verifier therefore proves that no probe ever touches
    kernel memory.
- `descriptors.dfy` (`Descriptors`): the descriptor table.
  - `OpenOn` and `CloseOn` specify it on values.
  - The class `Process` holds it in place (`fdList`, `nextFd`) together with
    the address space (`mem`).
  - Its methods are the fd parts of the calls, including the copy-out loop of
    `read` and the teardown loop of `exit`.
- `lifecycle.dfy` (`Lifecycle`): the thread registry.
  - A thread is named by its tid, so a `struct thread *` is a tid and NULL is
    `None`.
  - `RegistryValid` is its invariant.
  - `ExecOn`, `WaitOn` and `ExitThreads` specify the three calls.
  - The class `ThreadTable` performs them in place (`threads`, `nextTid`),
    including the record loop of `sys_exit`.
- `syscall.dfy` (`Syscall`): call numbers and arities, and `Admit`, which says
  what the checks make of a trap.
  - `Step` is one trap, on values.
  - `Dispatch` does the same trap in place on the interrupt frame, the
    `Process` and the `ThreadTable`, and is proved equal to `Step`.

Conventions the model fixes:

- Call numbers are those of Pintos's `lib/syscall-nr.h`: `HALT` = 0 …
  `CLOSE` = 12, `PRACTICE` = 13.
- `TID_ERROR` is -1 and `PHYS_BASE` is `0xC0000000`.
- Argument words are little-endian.
- A value stored into `eax` is truncated to 32 bits (two's complement).
- A word passed where the C prototype takes an `int` is read as a
  two's-complement `int`.

The file system, the loader and the console are outside the layer. Each trap
gets their answers as a `Storage` value, with one function per primitive.
The operations a trap asks of storage and does not otherwise model come back
as a `Request`: seek a file, close a file, close all of a process's files.

Where the code and the layer's documented behaviour disagree, the model
follows the code:

- `write` to descriptor 1 returns `strlen(buffer)`, not `size`
  (line 304; `StepWriteStdio`).
- `read` checks its destination buffer as a NUL-terminated string before the
  descriptor is looked up (line 267).
- The `return -1` in the `void` functions `sys_seek` and `sys_close`
  (lines 325, 352) returns nothing, so `eax` is left alone.
- `sys_tell`'s -1 (line 338) reaches `eax` as `0xFFFFFFFF`.
- A `write` to descriptor 0 (line 299) ends the caller only after its buffer
  has passed `check_str`.

The two defects listed under "## Findings" are the exception. The code as
written is modelled on its own (`OrphanAsWritten`, `ExitAsWrittenFaults`,
`CopyOutAsWritten`, `ReadAsWrittenStoresIntoKernel`). The trap-level model
implements the corrected behaviour instead. This covers `Step`, `Dispatch`,
`ExitStep`, `SysExit`, `ThreadTable.Exit`, `ThreadTable.ReleaseChildren` and
`Process.Read`.

- The record loop of `sys_exit` skips records whose child has already exited,
  where line 130 dereferences NULL.
- The copy-out of `read` checks every target address against `PHYS_BASE`
  and fails with -1, where lines 283-289 store without a check.

## Model

| member | source | states |
|---|---|---|
| Base.ToWord | src/userprog/syscall.c:45 | storing into `eax` is two's-complement truncation to 32 bits: values in range unchanged, negative `int`s wrap by 2^32 |
| Base.ToInt32 | src/userprog/syscall.c:52 | reading an argument word as a C `int` gives an `int` that stores back to the same word |
| Base.Int32RoundTrip | src/userprog/syscall.c:45 | a C `int` survives the trip through a 32-bit word |
| Base.RemoveAt | src/userprog/syscall.c:359 | `list_remove` keeps the elements before, shifts those after, and removes exactly one element (multiset) |
| UserMemory.GetUser | src/userprog/syscall.c:394-402 | -1 exactly when the byte is not readable, otherwise the byte; callable only below `PHYS_BASE` |
| UserMemory.PutUser | src/userprog/syscall.c:404-412 | succeeds exactly on writable bytes, then stores the byte and changes nothing else; on failure nothing changes; callable only below `PHYS_BASE` |
| UserMemory.CheckNum32 | src/userprog/syscall.c:364-375 | accepts exactly when all four bytes of the word are readable user bytes; probes only those bytes and only below the split |
| UserMemory.CheckStr | src/userprog/syscall.c:378-392 | accepts exactly when a NUL-terminated string of readable user bytes starts at the pointer; probes only user addresses, exactly the string and its NUL |
| UserMemory.NoCStringPast | src/userprog/syscall.c:380-384 | once the walk meets the split or an unreadable byte before any NUL, no string starts at the pointer |
| UserMemory.CStrAtUnique | src/userprog/syscall.c:385-386 | the walk stops at the first NUL: a string has one length |
| UserMemory.CStrAtStep | src/userprog/syscall.c:387 | advancing past a non-NUL byte shortens the remaining string by one |
| UserMemory.CStrLen | src/userprog/syscall.c:304 | `strlen`: a length exactly when a string is there, and it is that string's length |
| UserMemory.StringAt | src/userprog/syscall.c:56 | the bytes of a validated string, all readable and non-NUL, as the loader or storage receives them |
| UserMemory.ReadWord | src/userprog/syscall.c:28 | a validated argument word is a 32-bit value whose bytes, lowest first, are the four user bytes at the address (little-endian) |
| Base.FindKey | src/userprog/syscall.c:193 | the walk behind `get_fd` and `get_child`: the first index holding the key, none exactly when no element holds it |
| Descriptors.FindFd | src/userprog/syscall.c:255 | `get_fd`: the first entry with that descriptor, or none exactly when no entry has it |
| Descriptors.OpenOn | src/userprog/syscall.c:229-249 | a failed open returns -1 and changes nothing; a successful one returns `next_fd`, bumps it, maps the new (previously free) descriptor to the file and leaves every other lookup alone; keeps the table valid |
| Descriptors.CloseOn | src/userprog/syscall.c:347-361 | closes exactly the file the descriptor named; unknown descriptors change nothing; every other lookup unchanged; afterwards the descriptor names nothing; keeps the table valid |
| Descriptors.OpenManyIncreasing | src/userprog/syscall.c:241 | over any sequence of opens without a close, the descriptors handed out are fresh and strictly increasing, hence pairwise distinct |
| Descriptors.UnopenedFdFails | src/userprog/syscall.c:255-258 | a descriptor never handed out (below 2 or at least `next_fd`) names no file |
| Descriptors.OpenCloseOpen | src/userprog/syscall.c:241-246 | on a fresh table: open gives 2, close returns that file and 2 then names nothing, the next open gives 3 |
| Descriptors.FilesOf | src/userprog/syscall.c:155 | the files of the entries, in list order |
| Descriptors.Delivered | src/userprog/syscall.c:280 | `file_read` delivers a prefix of the data of at most `size` bytes |
| Descriptors.CopyOut | src/userprog/syscall.c:283-292 | the copy-out (with the bound check added): the full count exactly when every target byte is a writable user byte, then those bytes hold the data; otherwise -1; only writable user bytes in the target change |
| Descriptors.CopyOutAsWritten | src/userprog/syscall.c:283-289 | the copy-out as written: `put_user` on every target byte with no check against the split; it returns the full count exactly when every target is at or above `PHYS_BASE` (a kernel address, which does not fault) or a writable user byte, and then every target holds its data byte; nothing outside the targets changes |
| Descriptors.ReadAsWrittenStoresIntoKernel | src/userprog/syscall.c:267-289 | a buffer at `PHYS_BASE - 1` holding a NUL passes `check_str`, and the loop as written then stores at `PHYS_BASE`; the corrected one returns -1 |
| Descriptors.Process.Open | src/userprog/syscall.c:229-249 | the table becomes `OpenOn` of the old one and the result is its descriptor |
| Descriptors.Process.Close | src/userprog/syscall.c:347-361 | the table becomes `CloseOn` of the old one; the closed file is returned |
| Descriptors.Process.Filesize | src/userprog/syscall.c:252-264 | -1 for an unknown descriptor, else `file_length` of its file |
| Descriptors.Process.Tell | src/userprog/syscall.c:333-345 | an unsigned result: `0xFFFFFFFF` for an unknown descriptor, else `file_tell` of its file |
| Descriptors.Process.Seek | src/userprog/syscall.c:320-331 | the file `file_seek` moves is the descriptor's entry, or none |
| Descriptors.Process.WriteFile | src/userprog/syscall.c:307-317 | -1 for an unknown descriptor, else `file_write` of its file |
| Descriptors.Process.Read | src/userprog/syscall.c:269-292 | -1 and no store for an unknown descriptor; else result and memory are those of `CopyOut` on the delivered data |
| Descriptors.Process.CloseAll | src/userprog/syscall.c:150-157 | the table ends empty and every file it held is closed once, in list order |
| Lifecycle.FindChild | src/userprog/syscall.c:193 | `get_child`: the first record for the tid, or none exactly when there is no record |
| Lifecycle.ExecOn | src/userprog/syscall.c:163-186 | `TID_ERROR` gives -1 and no change; a failed load gives -1, consumes a tid and leaves the registry as it was; a loaded child gets the next tid, a record in the caller's list that links it, and the caller as parent |
| Lifecycle.ExecKeepsValid | src/userprog/syscall.c:163-186 | exec keeps the registry invariant |
| Lifecycle.AdoptValid | src/userprog/syscall.c:165-186 | after a successful exec (new record in the caller, new thread with the caller as parent) the registry invariant holds with the bumped tid counter |
| Lifecycle.ValidLater | src/userprog/syscall.c:165-183 | a failed load consumes a tid without breaking the registry invariant |
| Lifecycle.WaitOn | src/userprog/syscall.c:189-204 | -1 and no change without a record; blocks (no change) while the child runs; else returns the record's status and removes exactly that record |
| Lifecycle.WaitTwice | src/userprog/syscall.c:198-203 | a second wait on the same pid after one that returned gives -1 |
| Lifecycle.WaitKeepsValid | src/userprog/syscall.c:189-204 | wait keeps the registry invariant |
| Lifecycle.Orphan | src/userprog/syscall.c:126-134 | the record loop of `sys_exit` clears the parent of exactly the children still linked, and changes no list |
| Lifecycle.OrphanAsWritten | src/userprog/syscall.c:127-133 | the loop as written faults exactly when some record's child already exited, and otherwise agrees with `Orphan` |
| Lifecycle.LiveChildren | src/userprog/syscall.c:130 | in a valid registry the children the records still link are exactly the threads whose parent is the caller |
| Lifecycle.ExitEffects | src/userprog/syscall.c:125-143 | exit empties the caller's list, orphans exactly its running children, rewrites exactly its record in the parent (status set, link cleared) and no other list |
| Lifecycle.ExitKeepsValid | src/userprog/syscall.c:120-160 | once the exiting thread is gone the registry invariant holds again |
| Lifecycle.ExitAsWrittenFaults | src/userprog/syscall.c:130-141 | reachable from one thread: start a child, the child exits unwaited, then the parent's exit as written dereferences NULL |
| Lifecycle.SpawnExitWait | src/userprog/syscall.c:136-143 | start child, child exits with 7: wait returns 7, a second wait returns -1 |
| Lifecycle.FirstSpawn | src/userprog/syscall.c:163-186 | thread 1's first exec gives pid 2, a running record in 1's list and 1 as 2's parent |
| Lifecycle.FirstChildExits | src/userprog/syscall.c:136-143 | child 2 exiting with 7 leaves, once it is destroyed, only 1 with a record holding 7 and no link |
| Lifecycle.FirstWait | src/userprog/syscall.c:189-204 | waiting on that record returns 7 and removes it; a second wait returns -1 |
| Lifecycle.ParentExitsFirst | src/userprog/syscall.c:125-143 | a parent exiting first orphans its child; the child's later exit writes no record and empties the registry |
| Lifecycle.FirstParentExits | src/userprog/syscall.c:125-143 | thread 1 exiting while child 2 runs leaves only 2, with no parent |
| Lifecycle.OrphanExits | src/userprog/syscall.c:136-143 | an orphan's exit finds no parent record to write and leaves an empty registry |
| Lifecycle.ThreadTable.Exec | src/userprog/syscall.c:163-186 | the registry and tid counter become `ExecOn` of the old ones and the result is its pid; keeps the invariant |
| Lifecycle.ThreadTable.Wait | src/userprog/syscall.c:189-204 | registry and result are `WaitOn` of the old registry; keeps the invariant |
| Lifecycle.ThreadTable.Exit | src/userprog/syscall.c:125-143 | the loop and the hand-over leave the registry at `ExitThreads` of the old one |
| Lifecycle.ThreadTable.Destroy | src/userprog/syscall.c:160 | the thread leaves the registry, nothing else changes |
| Syscall.Number | src/userprog/syscall.c:42-113 | every call has a number in 0..13 |
| Syscall.Decode | src/userprog/syscall.c:42-113 | a number selects the call with that number, and none exactly outside 0..13 |
| Syscall.DecodeNumber | src/userprog/syscall.c:42-113 | each call is selected by its own number and no other |
| Syscall.Arity | src/userprog/syscall.c:43-110 | each case validates at most three argument words |
| Syscall.StringArg | src/userprog/syscall.c:56 | the argument walked as a string is one of the validated words |
| Syscall.Args | src/userprog/syscall.c:28 | the argument words, `args[1]` onward, are the validated words at `esp + 4k` |
| Syscall.CheckArgs | src/userprog/syscall.c:44-110 | the `check_num32` calls of a case accept exactly when every argument word is readable |
| Syscall.Admit | src/userprog/syscall.c:40-113 | unknown exactly for a readable number outside the cases; rejected exactly when a word or string check fails; an admitted call carries its validated words and string |
| Syscall.SysPractice | src/userprog/syscall.c:116 | `i + 1`, wrapping to `INT_MIN` at `INT_MAX` |
| Syscall.ExitStep | src/userprog/syscall.c:120-161 | `sys_exit` ends the caller with its status: `eax` and memory untouched, the caller gone from the registry, its table empty, exactly its open files closed in list order |
| Syscall.ProcessCall | src/userprog/syscall.c:42-65 | the first switch never touches user memory; it writes `eax` only for value-returning calls that resume, and only 32-bit words; only `exit` ends the caller, and otherwise the table is unchanged and the caller stays registered |
| Syscall.FileCall | src/userprog/syscall.c:68-113 | the second switch writes `eax` only for value-returning calls, only with 32-bit words; it resumes the caller with registry unchanged, or (`write` to descriptor 0 only) exits it with -1 as `sys_exit(-1)`; only `read` changes memory, and only at storable bytes |
| Syscall.StepOnBadTrap | src/userprog/syscall.c:40-113 | an unknown number changes nothing; a rejected trap ends the caller with -1 without touching `eax` |
| Syscall.StepWritesEaxOnlyForValues | src/userprog/syscall.c:42-113 | `eax` changes only on an admitted call that returns a value, and only when the caller resumes |
| Syscall.StepEaxIsWord | src/userprog/syscall.c:45-105 | every result written to `eax` is a 32-bit word |
| Syscall.StepStoresOnlyUserMemory | src/userprog/syscall.c:283-289 | only `read` changes user memory, and only writable bytes below the split |
| Syscall.StepWriteStdio | src/userprog/syscall.c:295-305 | `write(0, …)` ends the caller with -1; `write(1, buf, …)` returns `strlen(buf)` and touches neither table nor storage |
| Syscall.StepUnknownFd | src/userprog/syscall.c:252-361 | an unknown descriptor makes a file call return -1 (or do nothing for `seek`/`close`) and never ends the caller |
| Syscall.FileCallUnknownFd | src/userprog/syscall.c:252-361 | in the second switch, a descriptor the table does not hold gives -1 in `eax` (nothing for `seek`/`close`) and changes nothing else |
| Syscall.StepKeepsValid | src/userprog/syscall.c:27-114 | a trap keeps the table and registry invariants; the caller leaves the registry exactly when it exits, and then its table is empty and its files closed |
| Syscall.ProcessCallKeepsValid | src/userprog/syscall.c:42-65 | halt, practice, exit, exec and wait all keep the table and registry invariants |
| Syscall.FileCallKeepsValid | src/userprog/syscall.c:68-113 | the file calls keep the table and registry invariants, including the exit of `write(0, …)` |
| Syscall.SysExit | src/userprog/syscall.c:120-161 | orphaning, hand-over, descriptor teardown and removal from the registry, as `ExitStep` |
| Syscall.HandleProcessCall | src/userprog/syscall.c:42-65 | the first switch, proved equal to its value-level definition |
| Syscall.HandleFileCall | src/userprog/syscall.c:68-113 | the second switch, proved equal to its value-level definition |
| Syscall.HandleWrite | src/userprog/syscall.c:295-318 | `sys_write` in place: descriptor 0 runs `sys_exit(-1)`, 1 answers the string length, others write their file; equal to `FileCall` |
| Syscall.HandleFdCall | src/userprog/syscall.c:68-113 | the other cases of the second switch in place, changing only frame and process; equal to `FileCall` |
| Syscall.Validate | src/userprog/syscall.c:40-113 | the checks in the source's order (number word, argument words, string) decide exactly what `Admit` decides |
| Syscall.Dispatch | src/userprog/syscall.c:27-114 | one trap in place on frame, process and registry, proved equal to `Step`; both invariants preserved |

## Left out

- Console output (`printf` of `exit(status)` at line 123, and the text written
  to descriptor 1 at line 303) is I/O and is not modelled.
- `sys_halt`'s `shutdown_power_off` (line 118) is the `Halted` outcome only.
- `sys_file_lock` is not modelled, and neither are the semaphores
  `chile_sema` and `cs->sema`. Each trap runs to completion in one step.
  - A `wait` on a child that is still running returns `Blocked` and changes
    nothing. Resuming later is a second `wait`.
  - The start-up handshake of `exec` is folded into the `SpawnReply` that
    `process_execute` gives.
- `process_execute`, the loader and `thread_create` are not part of this
  model.
  - The registry gives a new child the next tid.
  - A started child's record holds status 0 until the child exits. Only its
    differing from -1 matters.
  - A child whose load failed holds -1.
- `process_exit`, at line 160, only removes the thread from the registry. It
  does more than that (page tables, the PCB itself), and that code is not
  part of this model.
- Closing the executable at line 148 (`file_close(t->pcb->elf_file)`) is not
  modelled. `CloseFiles` lists only the descriptor-table files.
- Storage semantics (what `file_write` writes, where `file_seek` moves) live
  in the file system, which is not part of this model.
  - Each primitive's answer is a parameter of the trap.
  - `seek` and the closes come back as a `Request`.
- `Descriptors.Process.WriteFile` does not model the kernel reading the
  `size` bytes of the user buffer inside `file_write`. Only the bytes up to
  its NUL were validated (line 296); a longer `size` makes the kernel touch
  unvalidated memory.
- `get_fd` and `get_child` are defined outside `syscall.c` and are not part
  of this model. Both are modelled as a walk from the front of the list that
  stops at the first entry with the wanted descriptor or tid (`FindFd`,
  `FindChild`, both through `FindKey`).
- `struct child_status` is declared outside `syscall.c`. The model assumes
  it keeps the child's tid in a field of its own (`tid`), apart from the
  `child` pointer. Line 141 sets that pointer to NULL, and `sys_wait`
  (line 193) still finds the record by tid afterwards.
- The initial value of `next_fd` is set outside `syscall.c`. The model
  assumes 2 (`FIRST_FD`, set by the `Process` constructor), the first value
  above the console's descriptors 0 and 1.
- A new child's record is created outside `syscall.c`, during
  `process_execute`. The model appends it at the end of the caller's list
  (`ExecOn`).
- The model assumes every `malloc` succeeds: the `struct file_info` of
  `sys_open` (line 242) and the bounce buffer of `sys_read` (line 277). The
  source does not check either result for NULL. In `sys_read` the user picks
  `size`, so a large request can make `malloc` fail, and the code then
  hands NULL to `file_read` and reads from it in the copy loop. `Delivered`
  and `CopyOut` do not model that case.
- `next_fd` overflow is not modelled: descriptors are unbounded integers.
- `Syscall.SysPractice`: C leaves `INT_MAX + 1` undefined; the model wraps it
  to `INT_MIN`, as the 32-bit `eax` does.

## Findings

| source | as written | input that shows it | evidently intended | confidence | as-written member | corrected member |
|---|---|---|---|---|---|---|
| src/userprog/syscall.c:130 | `cs->child->parent = NULL` for every record of the exiting thread | thread 1 starts child 2; 2 exits (line 141 sets its record's `child` to NULL); 1 exits without waiting, so the loop dereferences NULL | skip the records whose child has already exited | not executed | Lifecycle.OrphanAsWritten, Lifecycle.ExitAsWrittenFaults | Lifecycle.Orphan, Lifecycle.ExitKeepsValid |
| src/userprog/syscall.c:283-289 | `put_user(buffer + i, …)` with no check that `buffer + i` is below `PHYS_BASE`, although `put_user` requires it | `read(fd, 0xBFFFFFFF, 2)` with a NUL at `0xBFFFFFFF` passes `check_str`; a file delivering two bytes makes the second store go to `0xC0000000`, in kernel memory | check every target address against the split before storing, and fail with -1 | not executed | Descriptors.CopyOutAsWritten, Descriptors.ReadAsWrittenStoresIntoKernel | Descriptors.CopyOut, Syscall.StepStoresOnlyUserMemory |
