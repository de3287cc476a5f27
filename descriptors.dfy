/** The per-process descriptor table: `fd_list` and `next_fd` of the process
    control block, and the parts of `sys_open`, `sys_close`, `sys_filesize`,
    `sys_seek`, `sys_tell`, `sys_read`, `sys_write` and `sys_exit` that work on
    it (src/userprog/syscall.c). */
module Descriptors {
  import opened Base
  import opened UserMemory

  /** An open-file handle of the storage engine (`struct file *`). */
  type File = nat

  /** One table entry (`struct file_info`). */
  datatype FileInfo = FileInfo(fd: int, file: File)

  /** Descriptors 0 and 1 are the console; the first table entry gets 2. */
  const FIRST_FD: int := 2

  /** `get_fd`: the index of the first entry for `fd`, if there is one. */
  function FindFd(list: seq<FileInfo>, fd: int): (r: Option<nat>)
    ensures r.Some? ==> r.value < |list| && list[r.value].fd == fd
    ensures r.Some? ==> forall j :: 0 <= j < r.value ==> list[j].fd != fd
    ensures r.None? <==> forall j :: 0 <= j < |list| ==> list[j].fd != fd
  {
    var keys := seq(|list|, i requires 0 <= i < |list| => list[i].fd);
    assert forall j :: 0 <= j < |list| ==> keys[j] == list[j].fd;
    FindKey(keys, fd)
  }

  /** The first entry for `fd` is the one at index `k`. */
  lemma FindFdAt(list: seq<FileInfo>, fd: int, k: nat)
    requires k < |list| && list[k].fd == fd
    requires forall j :: 0 <= j < k ==> list[j].fd != fd
    ensures FindFd(list, fd) == Some(k)
  {
  }

  /** The file a descriptor stands for, if any. */
  function FileOf(list: seq<FileInfo>, fd: int): Option<File> {
    match FindFd(list, fd)
    case None => None
    case Some(i) => Some(list[i].file)
  }

  /** The descriptor state of one process. */
  datatype FdTable = FdTable(list: seq<FileInfo>, next: int)

  /** The table's invariant: descriptors are distinct and every one was
      handed out by the counter, which starts above the console's two. */
  ghost predicate TableValid(t: FdTable) {
    && FIRST_FD <= t.next
    && (forall i :: 0 <= i < |t.list| ==> FIRST_FD <= t.list[i].fd < t.next)
    && (forall i, j :: 0 <= i < j < |t.list| ==> t.list[i].fd != t.list[j].fd)
  }

  /** `sys_open` after its name check (lines 229-249), given what
      `filesys_open` returned: -1 and nothing changed, or the old counter
      as the new descriptor, bound to the reply file in front of the list. */
  function OpenOn(t: FdTable, reply: Option<File>): (r: (FdTable, int))
    ensures reply.None? ==> r.1 == -1 && r.0 == t
    ensures reply.Some? ==> r.1 == t.next && r.0.next == t.next + 1
    ensures reply.Some? ==> FileOf(r.0.list, r.1) == reply
    ensures reply.Some? ==> |r.0.list| == |t.list| + 1
    ensures forall x :: x != r.1 ==> FileOf(r.0.list, x) == FileOf(t.list, x)
    ensures TableValid(t) ==> TableValid(r.0)
    ensures TableValid(t) && reply.Some? ==> FileOf(t.list, r.1) == None
  {
    if reply.None? then (t, -1)
    else
      var fd := t.next;
      var list := [FileInfo(fd, reply.value)] + t.list;
      assert list[1..] == t.list;
      (FdTable(list, t.next + 1), fd)
  }

  /** Removing an entry for another descriptor leaves a lookup alone. */
  lemma FileOfRemoveOther(list: seq<FileInfo>, i: nat, x: int)
    requires i < |list| && list[i].fd != x
    ensures FileOf(RemoveAt(list, i), x) == FileOf(list, x)
  {
    var r := RemoveAt(list, i);
    match FindFd(list, x)
    case None =>
      assert FindFd(r, x) == None;
    case Some(j) =>
      if j < i {
        FindFdAt(r, x, j);
      } else {
        assert r[j - 1] == list[j];
        forall k | 0 <= k < j - 1 ensures r[k].fd != x {
          if k >= i {
            assert r[k] == list[k + 1];
          }
        }
        FindFdAt(r, x, j - 1);
      }
  }

  /** Removing the entry for `fd` from a valid table leaves a valid table
      with no entry for `fd`. */
  lemma RemoveFdValid(t: FdTable, i: nat, fd: int)
    requires TableValid(t) && i < |t.list| && t.list[i].fd == fd
    ensures TableValid(FdTable(RemoveAt(t.list, i), t.next))
    ensures FindFd(RemoveAt(t.list, i), fd) == None
  {
    var list := RemoveAt(t.list, i);
    forall j | 0 <= j < |list| ensures list[j].fd != fd {
      if j < i {
        assert list[j] == t.list[j];
      } else {
        assert list[j] == t.list[j + 1];
      }
    }
  }

  /** `sys_close` (lines 347-361): the file to hand to `file_close` and the
      table once the entry is removed; an unknown descriptor changes
      nothing. */
  function CloseOn(t: FdTable, fd: int): (r: (FdTable, Option<File>))
    ensures r.1 == FileOf(t.list, fd)
    ensures r.1.None? ==> r.0 == t
    ensures r.0.next == t.next
    ensures r.1.Some? ==> |r.0.list| == |t.list| - 1
    ensures forall x :: x != fd ==> FileOf(r.0.list, x) == FileOf(t.list, x)
    ensures TableValid(t) ==> TableValid(r.0) && FileOf(r.0.list, fd) == None
  {
    match FindFd(t.list, fd)
    case None => (t, None)
    case Some(i) =>
      var list := RemoveAt(t.list, i);
      assert forall x :: x != fd ==> FileOf(list, x) == FileOf(t.list, x) by {
        forall x | x != fd ensures FileOf(list, x) == FileOf(t.list, x) {
          FileOfRemoveOther(t.list, i, x);
        }
      }
      assert TableValid(t) ==> TableValid(FdTable(list, t.next)) && FindFd(list, fd) == None by {
        if TableValid(t) {
          RemoveFdValid(t, i, fd);
        }
      }
      (FdTable(list, t.next), Some(t.list[i].file))
  }

  /** The descriptors a run of opens hands out, one per reply of
      `filesys_open`, -1 for each failed one. */
  function OpenMany(t: FdTable, replies: seq<Option<File>>): (fds: seq<int>)
    ensures |fds| == |replies|
    decreases |replies|
  {
    if replies == [] then []
    else
      var (t', fd) := OpenOn(t, replies[0]);
      [fd] + OpenMany(t', replies[1..])
  }

  /** Successful opens hand out strictly increasing descriptors, all at or
      above the counter and none already in the table; so no two are equal. */
  lemma {:induction false} OpenManyIncreasing(t: FdTable, replies: seq<Option<File>>)
    requires TableValid(t)
    ensures forall i :: 0 <= i < |replies| && replies[i].Some? ==>
      t.next <= OpenMany(t, replies)[i] && FileOf(t.list, OpenMany(t, replies)[i]) == None
    ensures forall i, j :: 0 <= i < j < |replies| && replies[i].Some? && replies[j].Some? ==>
      OpenMany(t, replies)[i] < OpenMany(t, replies)[j]
    decreases |replies|
  {
    if replies != [] {
      var (t', fd) := OpenOn(t, replies[0]);
      var rest := replies[1..];
      OpenManyIncreasing(t', rest);
      var fds := OpenMany(t, replies);
      assert fds == [fd] + OpenMany(t', rest);
      assert t.next <= t'.next;
      forall i | 0 <= i < |replies| && replies[i].Some?
        ensures t.next <= fds[i] && FileOf(t.list, fds[i]) == None
      {
        if i > 0 {
          assert rest[i - 1] == replies[i] && fds[i] == OpenMany(t', rest)[i - 1];
          assert fds[i] >= t'.next;
          assert TableValid(t');
          assert FileOf(t'.list, fds[i]) == None;
          if replies[0].Some? {
            assert fds[i] != fd;
          }
        }
      }
      forall i, j | 0 <= i < j < |replies| && replies[i].Some? && replies[j].Some?
        ensures fds[i] < fds[j]
      {
        assert rest[j - 1] == replies[j] && fds[j] == OpenMany(t', rest)[j - 1];
        if i > 0 {
          assert rest[i - 1] == replies[i] && fds[i] == OpenMany(t', rest)[i - 1];
        }
      }
    }
  }

  /** A descriptor the table never handed out names no file. */
  lemma UnopenedFdFails(t: FdTable, fd: int)
    requires TableValid(t) && (fd < FIRST_FD || t.next <= fd)
    ensures FileOf(t.list, fd) == None
  {
    assert forall j :: 0 <= j < |t.list| ==> t.list[j].fd != fd;
  }

  /** Open, close, open on a fresh table: descriptor 2, then 3 (a closed
      descriptor is not handed out again), and the closed one names nothing. */
  lemma OpenCloseOpen(h1: File, h2: File)
    ensures var t0 := FdTable([], FIRST_FD);
      var (t1, d1) := OpenOn(t0, Some(h1));
      var (t2, c) := CloseOn(t1, d1);
      var (t3, d2) := OpenOn(t2, Some(h2));
      && d1 == 2 && c == Some(h1)
      && FileOf(t2.list, d1) == None
      && d2 == 3 && FileOf(t3.list, d2) == Some(h2) && FileOf(t3.list, d1) == None
  {
    var t0 := FdTable([], FIRST_FD);
    assert TableValid(t0);
  }

  /** The handles of a list of entries, in list order. */
  function FilesOf(list: seq<FileInfo>): (files: seq<File>)
    ensures |files| == |list|
    ensures forall i :: 0 <= i < |list| ==> files[i] == list[i].file
  {
    if list == [] then [] else [list[0].file] + FilesOf(list[1..])
  }

  /** What `file_read` delivers for a request of `size` bytes: never more. */
  function Delivered(data: seq<Byte>, size: nat): (d: seq<Byte>)
    ensures |d| <= size && |d| <= |data| && d == data[..|d|]
    ensures |data| <= size ==> d == data
  {
    if |data| <= size then data else data[..size]
  }

  /** The copy-out loop of `sys_read` from offset `i` on (lines 283-292,
      with the destination check the source lacks, see below): stores
      `data[i..]` one byte at a time at `buffer + i ...`; the result is
      `|data|`, or -1 at the first destination that is not a writable user
      address, with the bytes before it already stored. */
  function CopyOut(m: Memory, buffer: nat, data: seq<Byte>, i: nat): (r: (int, Memory))
    requires i <= |data|
    ensures r.1.writable == m.writable
    ensures r.0 == |data| || r.0 == -1
    ensures r.0 == |data| <==> forall a :: buffer + i <= a < buffer + |data| ==> Storable(m, a)
    ensures r.0 == |data| ==>
      forall a :: buffer + i <= a < buffer + |data| ==> a in r.1.bytes && r.1.bytes[a] == data[a - buffer]
    ensures forall a :: a in m.bytes ==> a in r.1.bytes
    ensures forall a :: a in r.1.bytes && !(a in m.bytes && r.1.bytes[a] == m.bytes[a]) ==>
      buffer + i <= a < buffer + |data| && Storable(m, a)
    decreases |data| - i
  {
    if i == |data| then (|data|, m)
    else if buffer + i >= PHYS_BASE then
      assert !Storable(m, buffer + i);
      (-1, m)
    else
      var (ok, m') := PutUser(m, buffer + i, data[i]);
      if !ok then
        assert !Storable(m, buffer + i);
        (-1, m)
      else
        assert Storable(m, buffer + i);
        assert forall a :: Storable(m', a) == Storable(m, a);
        var r := CopyOut(m', buffer, data, i + 1);
        assert r.0 == |data| ==> r.1.bytes[buffer + i] == data[i];
        r
  }

  /** The copy-out loop as written (lines 283-292): `put_user` is called on
      `buffer + i` with no test against PHYS_BASE.  A store from ring 0 to a
      kernel address that maps physical memory (as `PHYS_BASE` itself does)
      does not fault, so it lands in kernel memory; the model treats every
      address at or above the split that way.  The copy succeeds exactly
      when each target is such a kernel address or a writable user byte. */
  function CopyOutAsWritten(m: Memory, buffer: nat, data: seq<Byte>, i: nat): (r: (int, Memory))
    requires i <= |data|
    ensures r.0 == |data| || r.0 == -1
    ensures r.1.writable == m.writable
    ensures r.0 == |data| <==>
      forall a :: buffer + i <= a < buffer + |data| ==> a >= PHYS_BASE || a in m.writable
    ensures r.0 == |data| ==>
      forall a :: buffer + i <= a < buffer + |data| ==> a in r.1.bytes && r.1.bytes[a] == data[a - buffer]
    ensures forall a :: a in m.bytes ==> a in r.1.bytes
    ensures forall a :: a in r.1.bytes && !(a in m.bytes && r.1.bytes[a] == m.bytes[a]) ==>
      buffer + i <= a < buffer + |data|
    decreases |data| - i
  {
    if i == |data| then (|data|, m)
    else if buffer + i >= PHYS_BASE || buffer + i in m.writable then
      var m' := m.(bytes := m.bytes[buffer + i := data[i]]);
      var r := CopyOutAsWritten(m', buffer, data, i + 1);
      assert r.0 == |data| ==> r.1.bytes[buffer + i] == data[i];
      r
    else (-1, m)
  }

  /** The input that shows it: a one-byte empty string just below the split
      passes the string check of line 267, and a two-byte read then stores
      its second byte at PHYS_BASE itself, where the corrected loop stops. */
  lemma ReadAsWrittenStoresIntoKernel()
    ensures var m := Memory(map[PHYS_BASE - 1 := 0], {PHYS_BASE - 1});
      && CStrAt(m, PHYS_BASE - 1, 0)
      && CopyOutAsWritten(m, PHYS_BASE - 1, [7, 7], 0).0 == 2
      && PHYS_BASE in CopyOutAsWritten(m, PHYS_BASE - 1, [7, 7], 0).1.bytes
      && CopyOut(m, PHYS_BASE - 1, [7, 7], 0).0 == -1
  {
    var m := Memory(map[PHYS_BASE - 1 := 0], {PHYS_BASE - 1});
    var m1 := m.(bytes := m.bytes[PHYS_BASE - 1 := 7]);
    var m2 := m1.(bytes := m1.bytes[PHYS_BASE := 7]);
    assert CopyOutAsWritten(m, PHYS_BASE - 1, [7, 7], 0) == CopyOutAsWritten(m1, PHYS_BASE - 1, [7, 7], 1);
    assert CopyOutAsWritten(m1, PHYS_BASE - 1, [7, 7], 1) == CopyOutAsWritten(m2, PHYS_BASE - 1, [7, 7], 2);
  }

  /** A process control block, as far as this layer touches it: its
      descriptor table and its user address space. */
  class Process {
    var fdList: seq<FileInfo>
    var nextFd: int
    var mem: Memory

    function Table(): FdTable
      reads this
    {
      FdTable(fdList, nextFd)
    }

    ghost predicate Valid()
      reads this
    {
      TableValid(Table())
    }

    /** A fresh process: an empty table whose counter starts at 2. */
    constructor (m: Memory)
      ensures Valid() && fdList == [] && nextFd == FIRST_FD && mem == m
    {
      fdList := [];
      nextFd := FIRST_FD;
      mem := m;
    }

    /** `sys_open` after its name check (lines 229-249). */
    method Open(reply: Option<File>) returns (fd: int)
      requires Valid()
      modifies this`fdList, this`nextFd
      ensures Valid()
      ensures (Table(), fd) == OpenOn(old(Table()), reply)
    {
      if reply.None? {
        return -1;
      }
      fd := nextFd;
      nextFd := nextFd + 1;
      fdList := [FileInfo(fd, reply.value)] + fdList;
    }

    /** `sys_close` (lines 347-361); `closed` is the handle given to
      `file_close`.  The `return -1` of line 352 returns nothing. */
    method Close(fd: int) returns (closed: Option<File>)
      requires Valid()
      modifies this`fdList
      ensures Valid()
      ensures (Table(), closed) == CloseOn(old(Table()), fd)
    {
      var i := FindFd(fdList, fd);
      if i.None? {
        return None;
      }
      closed := Some(fdList[i.value].file);
      fdList := RemoveAt(fdList, i.value);
    }

    /** `sys_filesize` (lines 252-264): -1 for an unknown descriptor, else
      what `file_length` reports for its file. */
    method Filesize(fd: int, length: File -> int) returns (r: int)
      ensures FileOf(fdList, fd).None? ==> r == -1
      ensures FileOf(fdList, fd).Some? ==> r == length(FileOf(fdList, fd).value)
    {
      var i := FindFd(fdList, fd);
      if i.None? {
        return -1;
      }
      r := length(fdList[i.value].file);
    }

    /** `sys_tell` (lines 333-345), an `unsigned`: -1 becomes 0xFFFFFFFF. */
    method Tell(fd: int, position: File -> int) returns (r: int)
      ensures IsWord(r)
      ensures FileOf(fdList, fd).None? ==> r == WORD_MODULUS - 1
      ensures FileOf(fdList, fd).Some? ==> r == ToWord(position(FileOf(fdList, fd).value))
    {
      var i := FindFd(fdList, fd);
      if i.None? {
        return ToWord(-1);
      }
      r := ToWord(position(fdList[i.value].file));
    }

    /** `sys_seek` (lines 320-331): the file `file_seek` moves, or None when
      the descriptor is unknown and nothing happens (the `return -1` of line
      325 returns nothing). */
    method Seek(fd: int) returns (target: Option<File>)
      ensures target == FileOf(fdList, fd)
      ensures target.Some? ==> exists i :: 0 <= i < |fdList| && fdList[i] == FileInfo(fd, target.value)
    {
      var i := FindFd(fdList, fd);
      if i.None? {
        return None;
      }
      target := Some(fdList[i.value].file);
    }

    /** `sys_write` to a table descriptor (lines 307-317): -1 for an unknown
      one, else what `file_write` reports for its file. */
    method WriteFile(fd: int, size: nat, write: (File, nat) -> int) returns (r: int)
      ensures FileOf(fdList, fd).None? ==> r == -1
      ensures FileOf(fdList, fd).Some? ==> r == write(FileOf(fdList, fd).value, size)
    {
      var i := FindFd(fdList, fd);
      if i.None? {
        return -1;
      }
      r := write(fdList[i.value].file, size);
    }

    /** `sys_read` after its buffer check (lines 269-292): -1 for an unknown
      descriptor; otherwise the bytes `file_read` delivers are copied out
      with `put_user`, giving the count or -1 at the first failed store. */
    method Read(fd: int, buffer: nat, size: nat, read: (File, nat) -> seq<Byte>) returns (r: int)
      modifies this`mem
      ensures FileOf(fdList, fd).None? ==> r == -1 && mem == old(mem)
      ensures FileOf(fdList, fd).Some? ==>
        (r, mem) == CopyOut(old(mem), buffer, Delivered(read(FileOf(fdList, fd).value, size), size), 0)
    {
      var i := FindFd(fdList, fd);
      if i.None? {
        return -1;
      }
      var data := Delivered(read(fdList[i.value].file, size), size);
      var k: nat := 0;
      while k < |data|
        invariant k <= |data|
        invariant CopyOut(mem, buffer, data, k) == CopyOut(old(mem), buffer, data, 0)
        decreases |data| - k
      {
        if buffer + k >= PHYS_BASE {
          return -1;
        }
        var (ok, m) := PutUser(mem, buffer + k, data[k]);
        if !ok {
          return -1;
        }
        mem := m;
        k := k + 1;
      }
      return |data|;
    }

    /** The descriptor teardown of `sys_exit` (lines 151-157): every entry
      is unlinked from the front and its file closed, each exactly once. */
    method CloseAll() returns (closed: seq<File>)
      requires Valid()
      modifies this`fdList
      ensures Valid()
      ensures fdList == [] && closed == FilesOf(old(fdList))
    {
      closed := [];
      while fdList != []
        invariant closed + FilesOf(fdList) == FilesOf(old(fdList))
        decreases |fdList|
      {
        var info := fdList[0];
        ghost var rest := FilesOf(fdList[1..]);
        assert FilesOf(fdList) == [info.file] + rest;
        fdList := fdList[1..];
        assert (closed + [info.file]) + rest == closed + ([info.file] + rest);
        closed := closed + [info.file];
      }
      assert TableValid(FdTable([], nextFd));
    }
  }
}
