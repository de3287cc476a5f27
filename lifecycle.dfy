/** Child-status records and the process lifecycle: the `parent` link and
    the `child_exit_status` list of each thread, and what `sys_exec`,
    `sys_wait` and `sys_exit` do to them (src/userprog/syscall.c).  Threads
    are named by their tids in one registry, so a `struct thread *` is a tid
    and a NULL pointer is None. */
module Lifecycle {
  import opened Base

  type Tid = int

  /** `TID_ERROR`, what `process_execute` returns when it cannot start. */
  const TID_ERROR: int := -1

  /** The status a started child's record holds until the child exits.  The
      code that sets it is not part of this model; `sys_exec` only needs it
      to differ from -1. */
  const RUNNING: int := 0

  /** `struct child_status`: the child's tid (the key `get_child` looks
      up), the link to the still running child, and its exit status. */
  datatype ChildStatus = ChildStatus(tid: Tid, child: Option<Tid>, exitStatus: int)

  /** The part of `struct thread` this layer touches. */
  datatype Thread = Thread(parent: Option<Tid>, children: seq<ChildStatus>)

  /** `get_child`: the index of the first record for `tid`, if any. */
  function FindChild(rs: seq<ChildStatus>, tid: Tid): (r: Option<nat>)
    ensures r.Some? ==> r.value < |rs| && rs[r.value].tid == tid
    ensures r.Some? ==> forall j :: 0 <= j < r.value ==> rs[j].tid != tid
    ensures r.None? <==> forall j :: 0 <= j < |rs| ==> rs[j].tid != tid
  {
    var keys := seq(|rs|, i requires 0 <= i < |rs| => rs[i].tid);
    assert forall j :: 0 <= j < |rs| ==> keys[j] == rs[j].tid;
    FindKey(keys, tid)
  }

  lemma FindChildAt(rs: seq<ChildStatus>, tid: Tid, k: nat)
    requires k < |rs| && rs[k].tid == tid
    requires forall j :: 0 <= j < k ==> rs[j].tid != tid
    ensures FindChild(rs, tid) == Some(k)
  {
  }

  ghost predicate DistinctTids(rs: seq<ChildStatus>) {
    forall i, j :: 0 <= i < j < |rs| ==> rs[i].tid != rs[j].tid
  }

  /** Overwriting a record by one with the same tid moves no lookup. */
  lemma FindChildUpdate(rs: seq<ChildStatus>, k: nat, r: ChildStatus, tid: Tid)
    requires k < |rs| && r.tid == rs[k].tid
    ensures FindChild(rs[k := r], tid) == FindChild(rs, tid)
  {
    var rs' := rs[k := r];
    match FindChild(rs, tid)
    case None =>
      assert forall j :: 0 <= j < |rs'| ==> rs'[j].tid != tid by {
        forall j | 0 <= j < |rs'| ensures rs'[j].tid != tid {
          assert rs'[j].tid == rs[j].tid;
        }
      }
    case Some(i) =>
      assert rs'[i].tid == tid;
      forall j | 0 <= j < i ensures rs'[j].tid != tid {
        assert rs'[j].tid == rs[j].tid;
      }
      FindChildAt(rs', tid, i);
  }

  /** A record is consistent: its tid was allocated after its owner's, and
      while it links a running child, that child's `parent` is the owner. */
  ghost predicate RecordOk(ts: map<Tid, Thread>, owner: Tid, r: ChildStatus, nextTid: int) {
    && owner < r.tid < nextTid
    && (r.child.Some? ==> r.child.value == r.tid && r.tid in ts && ts[r.tid].parent == Some(owner))
  }

  /** A thread with a parent has a record in the parent's list that still
      links it: the record `get_child` at line 138 must find. */
  ghost predicate ParentOk(ts: map<Tid, Thread>, c: Tid)
    requires c in ts
  {
    match ts[c].parent
    case None => true
    case Some(pt) =>
      && pt in ts
      && pt < c
      && match FindChild(ts[pt].children, c)
         case None => false
         case Some(i) => ts[pt].children[i].child == Some(c)
  }

  /** The registry's invariant. */
  ghost predicate RegistryValid(ts: map<Tid, Thread>, nextTid: int) {
    && (forall t :: t in ts ==> 1 <= t < nextTid)
    && (forall t, i :: t in ts && 0 <= i < |ts[t].children| ==> RecordOk(ts, t, ts[t].children[i], nextTid))
    && (forall t :: t in ts ==> DistinctTids(ts[t].children))
    && (forall c :: c in ts ==> ParentOk(ts, c))
  }

  // ---------------------------------------------------------------- exec

  /** What `process_execute` and the start-up handshake on `chile_sema`
      yield: no thread at all, a child whose load failed, or a running one. */
  datatype SpawnReply = TidError | LoadFailed | Loaded

  /** `sys_exec` (lines 163-186) with `process_execute` folded in: a new
      child gets the next tid and a record in the caller's list; a record
      whose status is -1 (the load failed) is discarded again and -1 is
      returned; otherwise the child's tid is. */
  function ExecOn(ts: map<Tid, Thread>, nextTid: int, cur: Tid, reply: SpawnReply): (r: (map<Tid, Thread>, int, int))
    requires cur in ts
    ensures reply.TidError? ==> r == (ts, nextTid, -1)
    ensures !reply.TidError? ==> r.1 == nextTid + 1
    ensures RegistryValid(ts, nextTid) && reply.Loaded? ==> r.2 == nextTid && r.2 != TID_ERROR
    ensures RegistryValid(ts, nextTid) && !reply.Loaded? ==> r.0 == ts && r.2 == -1
    ensures RegistryValid(ts, nextTid) && reply.Loaded? ==>
      && r.0 == ts[cur := ts[cur].(children := ts[cur].children + [ChildStatus(r.2, Some(r.2), RUNNING)])]
                  [r.2 := Thread(Some(cur), [])]
      && r.2 !in ts
  {
    if reply.TidError? then (ts, nextTid, TID_ERROR)
    else
      var tid := nextTid;
      var rec := if reply.Loaded? then ChildStatus(tid, Some(tid), RUNNING) else ChildStatus(tid, None, -1);
      var before := ts[cur].children;
      var ts1 := ts[cur := ts[cur].(children := before + [rec])];
      var ts2 := if reply.Loaded? then ts1[tid := Thread(Some(cur), [])] else ts1;
      assert cur != tid || !RegistryValid(ts, nextTid);
      assert ts2[cur].children == before + [rec] || !RegistryValid(ts, nextTid);
      match FindChild(ts2[cur].children, tid)
      case None => (ts2, nextTid + 1, tid)
      case Some(i) =>
        if ts2[cur].children[i].exitStatus == -1 then
          assert RegistryValid(ts, nextTid) ==> i == |before| && RemoveAt(before + [rec], i) == before by {
            if RegistryValid(ts, nextTid) {
              assert forall j :: 0 <= j < |before| ==> before[j].tid < nextTid by {
                forall j | 0 <= j < |before| ensures before[j].tid < nextTid {
                  assert RecordOk(ts, cur, before[j], nextTid);
                }
              }
              assert (before + [rec])[|before|].tid == tid;
              assert RemoveAt(before + [rec], |before|) == before;
            }
          }
          (ts2[cur := ts2[cur].(children := RemoveAt(ts2[cur].children, i))], nextTid + 1, -1)
        else
          (ts2, nextTid + 1, tid)
  }

  /** Exec keeps the registry consistent. */
  lemma ExecKeepsValid(ts: map<Tid, Thread>, nextTid: int, cur: Tid, reply: SpawnReply)
    requires RegistryValid(ts, nextTid) && cur in ts
    ensures RegistryValid(ExecOn(ts, nextTid, cur, reply).0, ExecOn(ts, nextTid, cur, reply).1)
  {
    var r := ExecOn(ts, nextTid, cur, reply);
    if reply.Loaded? {
      assert r.0 == Adopt(ts, nextTid, cur) && r.1 == nextTid + 1;
      AdoptValid(ts, nextTid, cur);
    } else if reply.LoadFailed? {
      assert r.0 == ts && r.1 == nextTid + 1;
      ValidLater(ts, nextTid);
    }
  }

  /** A successful exec's registry is consistent. */
  lemma AdoptValid(ts: map<Tid, Thread>, nextTid: int, cur: Tid)
    requires RegistryValid(ts, nextTid) && cur in ts
    ensures RegistryValid(Adopt(ts, nextTid, cur), nextTid + 1)
  {
    AdoptRecords(ts, nextTid, cur);
    AdoptDistinct(ts, nextTid, cur);
    AdoptParents(ts, nextTid, cur);
  }

  /** Allocating a tid that no one uses keeps the registry consistent. */
  lemma ValidLater(ts: map<Tid, Thread>, nextTid: int)
    requires RegistryValid(ts, nextTid)
    ensures RegistryValid(ts, nextTid + 1)
  {
    forall t, i | t in ts && 0 <= i < |ts[t].children| ensures RecordOk(ts, t, ts[t].children[i], nextTid + 1) {
      assert RecordOk(ts, t, ts[t].children[i], nextTid);
    }
  }

  /** The registry after a successful exec: the caller's new record and the
      child's own entry. */
  ghost function Adopt(ts: map<Tid, Thread>, nextTid: int, cur: Tid): map<Tid, Thread>
    requires cur in ts
  {
    ts[cur := ts[cur].(children := ts[cur].children + [ChildStatus(nextTid, Some(nextTid), RUNNING)])]
      [nextTid := Thread(Some(cur), [])]
  }

  lemma AdoptRecords(ts: map<Tid, Thread>, nextTid: int, cur: Tid)
    requires RegistryValid(ts, nextTid) && cur in ts
    ensures var ts' := Adopt(ts, nextTid, cur);
      forall t, i :: t in ts' && 0 <= i < |ts'[t].children| ==> RecordOk(ts', t, ts'[t].children[i], nextTid + 1)
  {
    var ts' := Adopt(ts, nextTid, cur);
    var rec := ChildStatus(nextTid, Some(nextTid), RUNNING);
    forall t, i | t in ts' && 0 <= i < |ts'[t].children| ensures RecordOk(ts', t, ts'[t].children[i], nextTid + 1) {
      if t == cur && i == |ts[cur].children| {
        assert ts'[t].children[i] == rec;
      } else if t != nextTid {
        assert ts'[t].children[i] == ts[t].children[i];
        assert RecordOk(ts, t, ts[t].children[i], nextTid);
      }
    }
  }

  lemma AdoptDistinct(ts: map<Tid, Thread>, nextTid: int, cur: Tid)
    requires RegistryValid(ts, nextTid) && cur in ts
    ensures var ts' := Adopt(ts, nextTid, cur);
      forall t :: t in ts' ==> DistinctTids(ts'[t].children)
  {
    var ts' := Adopt(ts, nextTid, cur);
    var cs := ts[cur].children + [ChildStatus(nextTid, Some(nextTid), RUNNING)];
    assert ts'[cur].children == cs;
    forall i, j | 0 <= i < j < |cs| ensures cs[i].tid != cs[j].tid {
      if j == |ts[cur].children| {
        assert RecordOk(ts, cur, ts[cur].children[i], nextTid);
      }
    }
  }

  lemma AdoptParents(ts: map<Tid, Thread>, nextTid: int, cur: Tid)
    requires RegistryValid(ts, nextTid) && cur in ts
    ensures var ts' := Adopt(ts, nextTid, cur);
      forall c :: c in ts' ==> ParentOk(ts', c)
  {
    var ts' := Adopt(ts, nextTid, cur);
    var cs := ts[cur].children + [ChildStatus(nextTid, Some(nextTid), RUNNING)];
    forall c | c in ts' ensures ParentOk(ts', c) {
      if c == nextTid {
        FindChildAt(cs, nextTid, |ts[cur].children|) by {
          forall j | 0 <= j < |ts[cur].children| ensures cs[j].tid != nextTid {
            assert RecordOk(ts, cur, ts[cur].children[j], nextTid);
          }
        }
      } else {
        assert ts'[c] == if c == cur then ts[cur].(children := cs) else ts[c];
        assert ParentOk(ts, c);
        if ts[c].parent.Some? {
          var pt := ts[c].parent.value;
          if pt == cur {
            var i := FindChild(ts[cur].children, c).value;
            FindChildAt(cs, c, i);
          }
        }
      }
    }
  }

  // ---------------------------------------------------------------- wait

  /** What `sys_wait` gives back: a status for the caller's `eax`, or the
      note that it blocks on the record's semaphore until the child exits. */
  datatype WaitOutcome = Status(value: int) | Blocks

  /** `sys_wait` (lines 189-204): -1 without a record for `pid`; with one
      whose child still runs the caller blocks and nothing changes; else the
      record's exit status is returned and exactly that record is removed. */
  function WaitOn(ts: map<Tid, Thread>, cur: Tid, pid: Tid): (r: (map<Tid, Thread>, WaitOutcome))
    requires cur in ts
    ensures r.0.Keys == ts.Keys
    ensures forall t :: t in ts && t != cur ==> r.0[t] == ts[t]
    ensures r.0[cur].parent == ts[cur].parent
    ensures FindChild(ts[cur].children, pid).None? ==> r == (ts, Status(-1))
    ensures r.1 == Blocks ==> r.0 == ts
    ensures r.1 == Blocks <==>
      FindChild(ts[cur].children, pid).Some? && ts[cur].children[FindChild(ts[cur].children, pid).value].child.Some?
    ensures FindChild(ts[cur].children, pid).Some? && r.1 != Blocks ==>
      var i := FindChild(ts[cur].children, pid).value;
      && r.1 == Status(ts[cur].children[i].exitStatus)
      && multiset(r.0[cur].children) + multiset{ts[cur].children[i]} == multiset(ts[cur].children)
  {
    match FindChild(ts[cur].children, pid)
    case None => (ts, Status(-1))
    case Some(i) =>
      var cs := ts[cur].children[i];
      if cs.child.Some? then (ts, Blocks)
      else (ts[cur := ts[cur].(children := RemoveAt(ts[cur].children, i))], Status(cs.exitStatus))
  }

  /** A record is consumed once: after a wait that returned, a second wait
      on the same pid finds nothing and returns -1. */
  lemma WaitTwice(ts: map<Tid, Thread>, nextTid: int, cur: Tid, pid: Tid)
    requires RegistryValid(ts, nextTid) && cur in ts
    requires WaitOn(ts, cur, pid).1 != Blocks
    ensures WaitOn(WaitOn(ts, cur, pid).0, cur, pid) == (WaitOn(ts, cur, pid).0, Status(-1))
  {
    var rs := ts[cur].children;
    match FindChild(rs, pid)
    case None =>
    case Some(i) =>
      var rs' := RemoveAt(rs, i);
      assert DistinctTids(rs);
      forall j | 0 <= j < |rs'| ensures rs'[j].tid != pid {
        if j < i {
          assert rs'[j] == rs[j];
        } else {
          assert rs'[j] == rs[j + 1];
        }
      }
  }

  /** Dropping the record of a child that already exited keeps the
      registry consistent. */
  lemma DropRecordValid(ts: map<Tid, Thread>, nextTid: int, cur: Tid, i: nat)
    requires RegistryValid(ts, nextTid) && cur in ts
    requires i < |ts[cur].children| && ts[cur].children[i].child.None?
    ensures RegistryValid(ts[cur := ts[cur].(children := RemoveAt(ts[cur].children, i))], nextTid)
  {
    var rs := ts[cur].children;
    var rs' := RemoveAt(rs, i);
    var ts' := ts[cur := ts[cur].(children := rs')];
    DropRecordRecords(ts, nextTid, cur, i);
    DropRecordDistinct(rs, i);
    forall c | c in ts' ensures ParentOk(ts', c) {
      assert ParentOk(ts, c);
      if ts[c].parent == Some(cur) {
        DropRecordFind(rs, i, c);
      }
    }
  }

  lemma DropRecordRecords(ts: map<Tid, Thread>, nextTid: int, cur: Tid, i: nat)
    requires RegistryValid(ts, nextTid) && cur in ts && i < |ts[cur].children|
    ensures var ts' := ts[cur := ts[cur].(children := RemoveAt(ts[cur].children, i))];
      forall t, j :: t in ts' && 0 <= j < |ts'[t].children| ==> RecordOk(ts', t, ts'[t].children[j], nextTid)
  {
    var rs := ts[cur].children;
    var rs' := RemoveAt(rs, i);
    var ts' := ts[cur := ts[cur].(children := rs')];
    forall t, j | t in ts' && 0 <= j < |ts'[t].children| ensures RecordOk(ts', t, ts'[t].children[j], nextTid) {
      if t == cur {
        var j0 := if j < i then j else j + 1;
        assert rs'[j] == rs[j0];
        assert RecordOk(ts, t, rs[j0], nextTid);
      } else {
        assert RecordOk(ts, t, ts[t].children[j], nextTid);
      }
    }
  }

  lemma DropRecordDistinct(rs: seq<ChildStatus>, i: nat)
    requires DistinctTids(rs) && i < |rs|
    ensures DistinctTids(RemoveAt(rs, i))
  {
    var rs' := RemoveAt(rs, i);
    forall a, b | 0 <= a < b < |rs'| ensures rs'[a].tid != rs'[b].tid {
      var a0 := if a < i then a else a + 1;
      var b0 := if b < i then b else b + 1;
      assert rs'[a] == rs[a0] && rs'[b] == rs[b0];
    }
  }

  /** Dropping a record with no running child leaves the link of every
      running child findable. */
  lemma DropRecordFind(rs: seq<ChildStatus>, i: nat, c: Tid)
    requires i < |rs| && rs[i].child.None?
    requires FindChild(rs, c).Some? && rs[FindChild(rs, c).value].child == Some(c)
    ensures FindChild(RemoveAt(rs, i), c).Some?
    ensures RemoveAt(rs, i)[FindChild(RemoveAt(rs, i), c).value].child == Some(c)
  {
    var rs' := RemoveAt(rs, i);
    var k := FindChild(rs, c).value;
    var k' := if k < i then k else k - 1;
    assert rs'[k'] == rs[k];
    forall j | 0 <= j < k' ensures rs'[j].tid != c {
      var j0 := if j < i then j else j + 1;
      assert rs'[j] == rs[j0];
    }
    FindChildAt(rs', c, k');
  }

  /** Wait keeps the registry consistent. */
  lemma WaitKeepsValid(ts: map<Tid, Thread>, nextTid: int, cur: Tid, pid: Tid)
    requires RegistryValid(ts, nextTid) && cur in ts
    ensures RegistryValid(WaitOn(ts, cur, pid).0, nextTid)
  {
    match FindChild(ts[cur].children, pid)
    case None =>
    case Some(i) =>
      if ts[cur].children[i].child.None? {
        DropRecordValid(ts, nextTid, cur, i);
      }
  }

  // ---------------------------------------------------------------- exit

  /** A not-yet-waited child that still runs. */
  ghost predicate LiveIn(rs: seq<ChildStatus>, t: Tid) {
    exists i :: 0 <= i < |rs| && rs[i].child == Some(t)
  }

  /** Line 130 for one record, with the NULL link of an exited child
      skipped (see `OrphanAsWritten`). */
  function Release(ts: map<Tid, Thread>, r: ChildStatus): map<Tid, Thread> {
    if r.child.Some? && r.child.value in ts then ts[r.child.value := ts[r.child.value].(parent := None)]
    else ts
  }

  /** The first loop of `sys_exit` (lines 126-134) over the records `rs`:
      every child they still link loses its parent; nothing else changes. */
  function Orphan(ts: map<Tid, Thread>, rs: seq<ChildStatus>): (r: map<Tid, Thread>)
    ensures r.Keys == ts.Keys
    ensures forall t :: t in ts ==> r[t].children == ts[t].children
    ensures forall t :: t in ts ==> r[t].parent == if LiveIn(rs, t) then None else ts[t].parent
    decreases |rs|
  {
    if rs == [] then ts
    else
      var init := rs[..|rs| - 1];
      var last := rs[|rs| - 1];
      var o := Orphan(ts, init);
      assert forall t :: LiveIn(rs, t) <==> LiveIn(init, t) || last.child == Some(t) by {
        forall t ensures LiveIn(rs, t) <==> LiveIn(init, t) || last.child == Some(t) {
          if LiveIn(rs, t) {
            var i :| 0 <= i < |rs| && rs[i].child == Some(t);
            if i < |rs| - 1 {
              assert init[i] == rs[i];
            }
          }
          if LiveIn(init, t) {
            var i :| 0 <= i < |init| && init[i].child == Some(t);
            assert rs[i] == init[i];
          }
        }
      }
      Release(o, last)
  }

  /** Line 130 as written: `cs->child->parent = NULL` for every record,
      which dereferences NULL on the record of a child that already exited
      (line 141 cleared its link).  None stands for that kernel fault. */
  function OrphanAsWritten(ts: map<Tid, Thread>, rs: seq<ChildStatus>): (r: Option<map<Tid, Thread>>)
    ensures r.None? <==> exists i :: 0 <= i < |rs| && rs[i].child.None?
    ensures r.Some? ==> r.value == Orphan(ts, rs)
    decreases |rs|
  {
    if rs == [] then Some(ts)
    else
      var init := rs[..|rs| - 1];
      var last := rs[|rs| - 1];
      assert forall i :: 0 <= i < |init| ==> init[i] == rs[i];
      match OrphanAsWritten(ts, init)
      case None => None
      case Some(o) => if last.child.None? then None else Some(Release(o, last))
  }

  /** The second part of `sys_exit` (lines 137-143): the caller's record in
      its parent's list gets the status and loses its link to the caller. */
  function Publish(ts: map<Tid, Thread>, cur: Tid, status: int): map<Tid, Thread>
    requires cur in ts
  {
    match ts[cur].parent
    case None => ts
    case Some(pt) =>
      if pt !in ts then ts
      else match FindChild(ts[pt].children, cur)
        case None => ts
        case Some(k) =>
          var rs := ts[pt].children;
          ts[pt := ts[pt].(children := rs[k := rs[k].(child := None, exitStatus := status)])]
  }

  /** The registry after `sys_exit(status)` of `cur` (lines 125-143),
      before the thread itself is destroyed. */
  function ExitThreads(ts: map<Tid, Thread>, cur: Tid, status: int): map<Tid, Thread>
    requires cur in ts
  {
    var me := ts[cur];
    Publish(Orphan(ts, me.children)[cur := Thread(me.parent, [])], cur, status)
  }

  /** In a consistent registry the children `cur`'s records still link are
      exactly the threads whose parent is `cur`. */
  lemma LiveChildren(ts: map<Tid, Thread>, nextTid: int, cur: Tid)
    requires RegistryValid(ts, nextTid) && cur in ts
    ensures forall t :: t in ts ==> (LiveIn(ts[cur].children, t) <==> ts[t].parent == Some(cur))
  {
    var rs := ts[cur].children;
    forall t | t in ts ensures LiveIn(rs, t) <==> ts[t].parent == Some(cur) {
      if LiveIn(rs, t) {
        var i :| 0 <= i < |rs| && rs[i].child == Some(t);
        assert RecordOk(ts, cur, rs[i], nextTid);
      }
      if ts[t].parent == Some(cur) {
        assert ParentOk(ts, t);
        var i := FindChild(rs, t).value;
        assert rs[i].child == Some(t);
      }
    }
  }

  /** What `sys_exit` does to the registry: the caller's list is empty, its
      running children are orphaned and no one else is, and if it has a
      parent exactly its record there is rewritten (status set, link
      cleared); no other list changes. */
  lemma ExitEffects(ts: map<Tid, Thread>, nextTid: int, cur: Tid, status: int)
    requires RegistryValid(ts, nextTid) && cur in ts
    ensures var r := ExitThreads(ts, cur, status);
      && r.Keys == ts.Keys
      && r[cur] == Thread(ts[cur].parent, [])
      && (forall t :: t in ts && t != cur ==>
            r[t].parent == if ts[t].parent == Some(cur) then None else ts[t].parent)
      && (forall t :: t in ts && t != cur && Some(t) != ts[cur].parent ==> r[t].children == ts[t].children)
      && (ts[cur].parent.Some? ==>
            var pt := ts[cur].parent.value;
            && pt in ts && pt != cur
            && FindChild(ts[pt].children, cur).Some?
            && var k := FindChild(ts[pt].children, cur).value;
               r[pt].children == ts[pt].children[k := ChildStatus(cur, None, status)])
  {
    LiveChildren(ts, nextTid, cur);
    ExitLinks(ts, nextTid, cur);
    ExitEffectsOf(ts, cur, status);
  }

  /** `ExitEffects` from the two facts about `cur` it needs. */
  lemma ExitEffectsOf(ts: map<Tid, Thread>, cur: Tid, status: int)
    requires cur in ts
    requires forall t :: t in ts ==> (LiveIn(ts[cur].children, t) <==> ts[t].parent == Some(cur))
    requires ts[cur].parent.Some? ==>
      var pt := ts[cur].parent.value;
      pt in ts && pt != cur && FindChild(ts[pt].children, cur).Some?
    ensures var r := ExitThreads(ts, cur, status);
      && r.Keys == ts.Keys
      && r[cur] == Thread(ts[cur].parent, [])
      && (forall t :: t in ts && t != cur ==>
            r[t].parent == if ts[t].parent == Some(cur) then None else ts[t].parent)
      && (forall t :: t in ts && t != cur && Some(t) != ts[cur].parent ==> r[t].children == ts[t].children)
      && (ts[cur].parent.Some? ==>
            var pt := ts[cur].parent.value;
            var k := FindChild(ts[pt].children, cur).value;
            r[pt].children == ts[pt].children[k := ChildStatus(cur, None, status)])
  {
    var me := ts[cur];
    var ts1 := Orphan(ts, me.children)[cur := Thread(me.parent, [])];
    if me.parent.Some? {
      var pt := me.parent.value;
      assert ts1[pt].children == ts[pt].children;
    }
    PublishEffect(ts1, cur, status);
  }

  /** The hand-over of `sys_exit` on its own: exactly the caller's record
      in its parent's list is rewritten. */
  lemma PublishEffect(ts: map<Tid, Thread>, cur: Tid, status: int)
    requires cur in ts
    requires ts[cur].parent.Some? ==>
      var pt := ts[cur].parent.value;
      pt in ts && pt != cur && FindChild(ts[pt].children, cur).Some?
    ensures var r := Publish(ts, cur, status);
      && r.Keys == ts.Keys
      && (forall t :: t in ts && Some(t) != ts[cur].parent ==> r[t] == ts[t])
      && (ts[cur].parent.Some? ==>
            var pt := ts[cur].parent.value;
            var k := FindChild(ts[pt].children, cur).value;
            r[pt] == ts[pt].(children := ts[pt].children[k := ChildStatus(cur, None, status)]))
  {
    if ts[cur].parent.Some? {
      var pt := ts[cur].parent.value;
      var k := FindChild(ts[pt].children, cur).value;
      assert ts[pt].children[k].tid == cur;
    }
  }

  /** The registry is consistent again once the exiting thread is gone. */
  lemma ExitKeepsValid(ts: map<Tid, Thread>, nextTid: int, cur: Tid, status: int)
    requires RegistryValid(ts, nextTid) && cur in ts
    ensures RegistryValid(ExitThreads(ts, cur, status) - {cur}, nextTid)
  {
    ExitEffects(ts, nextTid, cur, status);
    ExitRecords(ts, nextTid, cur, status);
    ExitDistinct(ts, nextTid, cur, status);
    ExitParents(ts, nextTid, cur, status);
  }

  lemma ExitRecords(ts: map<Tid, Thread>, nextTid: int, cur: Tid, status: int)
    requires RegistryValid(ts, nextTid) && cur in ts
    ensures var r := ExitThreads(ts, cur, status) - {cur};
      forall t, i :: t in r && 0 <= i < |r[t].children| ==> RecordOk(r, t, r[t].children[i], nextTid)
  {
    ExitEffects(ts, nextTid, cur, status);
    var r := ExitThreads(ts, cur, status) - {cur};
    var par := ts[cur].parent;
    forall t, i | t in r && 0 <= i < |r[t].children| ensures RecordOk(r, t, r[t].children[i], nextTid) {
      var rec := r[t].children[i];
      if par == Some(t) && i == FindChild(ts[t].children, cur).value {
        assert RecordOk(ts, t, ts[t].children[i], nextTid);
      } else {
        assert rec == ts[t].children[i];
        assert RecordOk(ts, t, rec, nextTid);
      }
    }
  }

  lemma ExitDistinct(ts: map<Tid, Thread>, nextTid: int, cur: Tid, status: int)
    requires RegistryValid(ts, nextTid) && cur in ts
    ensures var r := ExitThreads(ts, cur, status) - {cur};
      forall t :: t in r ==> DistinctTids(r[t].children)
  {
    ExitEffects(ts, nextTid, cur, status);
    var r := ExitThreads(ts, cur, status) - {cur};
    forall t | t in r ensures DistinctTids(r[t].children) {
      assert DistinctTids(ts[t].children);
    }
  }

  lemma ExitParents(ts: map<Tid, Thread>, nextTid: int, cur: Tid, status: int)
    requires RegistryValid(ts, nextTid) && cur in ts
    ensures var r := ExitThreads(ts, cur, status) - {cur};
      forall c :: c in r ==> ParentOk(r, c)
  {
    ExitEffects(ts, nextTid, cur, status);
    var r := ExitThreads(ts, cur, status) - {cur};
    var par := ts[cur].parent;
    forall c | c in r ensures ParentOk(r, c) {
      assert ParentOk(ts, c);
      if r[c].parent.Some? {
        var q := r[c].parent.value;
        assert ts[c].parent == Some(q) && q != cur;
        var j := FindChild(ts[q].children, c).value;
        if par == Some(q) {
          var k := FindChild(ts[q].children, cur).value;
          FindChildUpdate(ts[q].children, k, ChildStatus(cur, None, status), c);
        }
      }
    }
  }

  /** The fault of line 130 is reachable: thread 1 starts child 2, child 2
      exits with 0, and thread 1 then exits without waiting for it. */
  lemma ExitAsWrittenFaults()
    ensures var ts0 := map[1 := Thread(None, [])];
      var (ts1, n1, pid) := ExecOn(ts0, 2, 1, Loaded);
      var ts2 := ExitThreads(ts1, pid, 0) - {pid};
      && RegistryValid(ts2, n1)
      && 1 in ts2
      && OrphanAsWritten(ts2, ts2[1].children).None?
  {
    var ts0 := map[1 := Thread(None, [])];
    assert RegistryValid(ts0, 2) by {
      assert ParentOk(ts0, 1);
    }
    ExecKeepsValid(ts0, 2, 1, Loaded);
    var (ts1, n1, pid) := ExecOn(ts0, 2, 1, Loaded);
    ExitEffects(ts1, n1, pid, 0);
    ExitKeepsValid(ts1, n1, pid, 0);
    var ts2 := ExitThreads(ts1, pid, 0) - {pid};
    assert ts1[1].children == [ChildStatus(2, Some(2), RUNNING)];
    FindChildAt(ts1[1].children, 2, 0);
    assert ts2[1].children[0].child.None?;
  }

  /** The handed-over status reaches the parent exactly once: 1 starts 2,
      2 exits with 7, 1 waits for 2 and gets 7, waits again and gets -1. */
  lemma SpawnExitWait()
    ensures var ts0 := map[1 := Thread(None, [])];
      var (ts1, n1, pid) := ExecOn(ts0, 2, 1, Loaded);
      var ts2 := ExitThreads(ts1, pid, 7) - {pid};
      && 1 in ts2
      && WaitOn(ts2, 1, pid).1 == Status(7)
      && 1 in WaitOn(ts2, 1, pid).0
      && WaitOn(WaitOn(ts2, 1, pid).0, 1, pid).1 == Status(-1)
  {
    FirstSpawn();
    FirstChildExits();
    FirstWait();
  }

  /** Thread 2 exits with 7: its record in 1's list now holds 7 and no link. */
  lemma FirstChildExits()
    ensures ExitThreads(map[1 := Thread(None, [ChildStatus(2, Some(2), RUNNING)]), 2 := Thread(Some(1), [])], 2, 7) - {2}
      == map[1 := Thread(None, [ChildStatus(2, None, 7)])]
  {
    var ts1 := map[1 := Thread(None, [ChildStatus(2, Some(2), RUNNING)]), 2 := Thread(Some(1), [])];
    FindChildAt(ts1[1].children, 2, 0);
    var ts2 := map[1 := Thread(None, [ChildStatus(2, None, 7)])];
    var x := ExitThreads(ts1, 2, 7);
    assert Orphan(ts1, []) == ts1;
    assert x.Keys == ts1.Keys && x[1] == ts2[1];
  }

  /** Thread 1 collects 7 once; the record is gone afterwards. */
  lemma FirstWait()
    ensures var ts2 := map[1 := Thread(None, [ChildStatus(2, None, 7)])];
      && WaitOn(ts2, 1, 2) == (map[1 := Thread(None, [])], Status(7))
      && WaitOn(map[1 := Thread(None, [])], 1, 2).1 == Status(-1)
  {
    var ts2 := map[1 := Thread(None, [ChildStatus(2, None, 7)])];
    FindChildAt(ts2[1].children, 2, 0);
    var w := WaitOn(ts2, 1, 2);
    assert RemoveAt(ts2[1].children, 0) == [];
    assert w.0.Keys == {1} && w.0[1] == Thread(None, []);
    assert w.0 == map[1 := Thread(None, [])];
    assert w.1 == Status(7);
  }

  /** The first exec of thread 1 gives tid 2 and links it both ways. */
  lemma FirstSpawn()
    ensures ExecOn(map[1 := Thread(None, [])], 2, 1, Loaded)
      == (map[1 := Thread(None, [ChildStatus(2, Some(2), RUNNING)]), 2 := Thread(Some(1), [])], 3, 2)
  {
    var ts0 := map[1 := Thread(None, [])];
    assert RegistryValid(ts0, 2) by {
      assert ParentOk(ts0, 1);
    }
    var rec := ChildStatus(2, Some(2), RUNNING);
    var ts1 := map[1 := Thread(None, [rec]), 2 := Thread(Some(1), [])];
    var e := ExecOn(ts0, 2, 1, Loaded);
    assert ts0[1].children + [rec] == [rec];
    assert e.0.Keys == ts1.Keys && e.0[1] == ts1[1] && e.0[2] == ts1[2];
    assert e.0 == ts1;
  }

  /** A parent that exits first orphans its running child, whose own exit
      later touches no record and leaves an empty registry: 1 starts 2, 1
      exits, 2 exits. */
  lemma ParentExitsFirst()
    ensures var ts0 := map[1 := Thread(None, [])];
      var (ts1, n1, pid) := ExecOn(ts0, 2, 1, Loaded);
      var ts2 := ExitThreads(ts1, 1, 0) - {1};
      && ts2 == map[pid := Thread(None, [])]
      && RegistryValid(ts2, n1)
      && ExitThreads(ts2, pid, 5) - {pid} == map[]
  {
    FirstSpawn();
    FirstParentExits();
    var ts2 := map[2 := Thread(None, [])];
    assert RegistryValid(ts2, 3) by {
      assert ParentOk(ts2, 2);
    }
    OrphanExits();
  }

  /** Thread 1 exits while child 2 runs: 2 is orphaned and 1 is gone. */
  lemma FirstParentExits()
    ensures ExitThreads(map[1 := Thread(None, [ChildStatus(2, Some(2), RUNNING)]), 2 := Thread(Some(1), [])], 1, 0) - {1}
      == map[2 := Thread(None, [])]
  {
    var ts1 := map[1 := Thread(None, [ChildStatus(2, Some(2), RUNNING)]), 2 := Thread(Some(1), [])];
    var x := ExitThreads(ts1, 1, 0);
    assert Orphan(ts1, ts1[1].children) == ts1[2 := Thread(None, [])] by {
      assert ts1[1].children[..0] == [];
    }
    assert x.Keys == ts1.Keys && x[2] == Thread(None, []);
    assert x - {1} == map[2 := Thread(None, [])];
  }

  /** The orphan's exit writes no record and leaves nobody. */
  lemma OrphanExits()
    ensures ExitThreads(map[2 := Thread(None, [])], 2, 5) - {2} == map[]
  {
    var y := ExitThreads(map[2 := Thread(None, [])], 2, 5);
    assert y.Keys == {2};
  }

  /** What the loop of `sys_exit` relies on: every record of `cur` links at
      most a registered thread other than `cur`, and `cur`'s parent, if any,
      is another thread holding a record for `cur`. */
  lemma ExitLinks(ts: map<Tid, Thread>, nextTid: int, cur: Tid)
    requires RegistryValid(ts, nextTid) && cur in ts
    ensures forall j :: 0 <= j < |ts[cur].children| ==>
      var r := ts[cur].children[j];
      r.child.Some? ==> r.child.value in ts && r.child.value != cur
    ensures ts[cur].parent.Some? ==>
      var pt := ts[cur].parent.value;
      pt in ts && pt != cur && FindChild(ts[pt].children, cur).Some?
  {
    forall j | 0 <= j < |ts[cur].children| ensures RecordOk(ts, cur, ts[cur].children[j], nextTid) {
    }
    assert ParentOk(ts, cur);
  }

  /** One turn of the loop of `sys_exit` over the records `rs` of `cur`. */
  lemma OrphanStep(ts: map<Tid, Thread>, rs: seq<ChildStatus>, i: nat, cur: Tid, par: Option<Tid>)
    requires i < |rs| && cur in ts
    requires rs[i].child.Some? ==> rs[i].child.value in ts && rs[i].child.value != cur
    ensures var o := Orphan(ts, rs[..i])[cur := Thread(par, rs[i..])];
      var o' := if rs[i].child.Some? then o[rs[i].child.value := o[rs[i].child.value].(parent := None)] else o;
      o'[cur := Thread(par, rs[i + 1..])] == Orphan(ts, rs[..i + 1])[cur := Thread(par, rs[i + 1..])]
  {
    assert rs[..i + 1][..i] == rs[..i];
    assert rs[..i + 1][i] == rs[i];
  }

  /** The registry of all threads, updated in place by the three calls. */
  class ThreadTable {
    var threads: map<Tid, Thread>
    var nextTid: int

    ghost predicate Valid()
      reads this
    {
      RegistryValid(threads, nextTid)
    }

    /** A table holding only the initial thread. */
    constructor (initial: Tid)
      requires 1 <= initial
      ensures Valid() && threads == map[initial := Thread(None, [])] && nextTid == initial + 1
    {
      var ts := map[initial := Thread(None, [])];
      assert ParentOk(ts, initial);
      threads := ts;
      nextTid := initial + 1;
    }

    /** `sys_exec` (lines 163-186). */
    method Exec(cur: Tid, reply: SpawnReply) returns (pid: int)
      requires Valid() && cur in threads
      modifies this
      ensures Valid()
      ensures (threads, nextTid, pid) == ExecOn(old(threads), old(nextTid), cur, reply)
    {
      ExecKeepsValid(threads, nextTid, cur, reply);
      ghost var spec := ExecOn(threads, nextTid, cur, reply);
      if reply.TidError? {
        return TID_ERROR;
      }
      // process_execute: a fresh tid and a record for it in the caller's list
      var tid := nextTid;
      nextTid := nextTid + 1;
      var rec := if reply.Loaded? then ChildStatus(tid, Some(tid), RUNNING) else ChildStatus(tid, None, -1);
      threads := threads[cur := threads[cur].(children := threads[cur].children + [rec])];
      if reply.Loaded? {
        threads := threads[tid := Thread(Some(cur), [])];
      }
      // lines 174-185
      var i := FindChild(threads[cur].children, tid);
      if i.None? {
        return tid;
      }
      if threads[cur].children[i.value].exitStatus == -1 {
        threads := threads[cur := threads[cur].(children := RemoveAt(threads[cur].children, i.value))];
        return -1;
      }
      return tid;
    }

    /** `sys_wait` (lines 189-204). */
    method Wait(cur: Tid, pid: Tid) returns (r: WaitOutcome)
      requires Valid() && cur in threads
      modifies this
      ensures Valid() && nextTid == old(nextTid)
      ensures (threads, r) == WaitOn(old(threads), cur, pid)
    {
      WaitKeepsValid(threads, nextTid, cur, pid);
      var i := FindChild(threads[cur].children, pid);
      if i.None? {
        return Status(-1);
      }
      var cs := threads[cur].children[i.value];
      if cs.child.Some? {
        return Blocks;
      }
      var ret := cs.exitStatus;
      threads := threads[cur := threads[cur].(children := RemoveAt(threads[cur].children, i.value))];
      return Status(ret);
    }

    /** Lines 125-143 of `sys_exit`: the loop that orphans and discards the
      caller's records, then the hand-over of the status to the parent. */
    method Exit(cur: Tid, status: int)
      requires Valid() && cur in threads
      modifies this`threads
      ensures threads == ExitThreads(old(threads), cur, status)
    {
      ghost var me := threads[cur];
      ExitLinks(threads, nextTid, cur);
      ReleaseChildren(cur);
      if me.parent.Some? {
        assert threads[me.parent.value].children == old(threads)[me.parent.value].children;
      }
      HandOver(cur, status);
    }

    /** The record loop of `sys_exit` (lines 126-134), corrected: front to
      back, each record that still links a running child clears that
      child's parent; a record whose child already exited (link NULL) is
      skipped, where line 130 as written would dereference NULL
      (`OrphanAsWritten`).  The caller's list ends empty. */
    method ReleaseChildren(cur: Tid)
      requires cur in threads
      requires forall j :: 0 <= j < |threads[cur].children| ==>
        var r := threads[cur].children[j];
        r.child.Some? ==> r.child.value in threads && r.child.value != cur
      modifies this`threads
      ensures threads == Orphan(old(threads), old(threads)[cur].children)[cur := Thread(old(threads)[cur].parent, [])]
    {
      var me := threads[cur];
      var rs := me.children;
      ghost var ts0 := threads;
      var i := 0;
      while i < |rs|
        invariant i <= |rs|
        invariant threads == Orphan(ts0, rs[..i])[cur := Thread(me.parent, rs[i..])]
      {
        var cs := rs[i];
        OrphanStep(ts0, rs, i, cur, me.parent);
        if cs.child.Some? {
          var c := cs.child.value;
          threads := threads[c := threads[c].(parent := None)];
        }
        threads := threads[cur := Thread(me.parent, rs[i + 1..])];
        i := i + 1;
      }
      assert rs[..i] == rs && rs[i..] == [];
    }

    /** The hand-over of `sys_exit` (lines 137-143): the record `get_child`
      finds in the parent's list gets the status and loses its link. */
    method HandOver(cur: Tid, status: int)
      requires cur in threads
      requires threads[cur].parent.Some? ==>
        var pt := threads[cur].parent.value;
        pt in threads && FindChild(threads[pt].children, cur).Some?
      modifies this`threads
      ensures threads == Publish(old(threads), cur, status)
    {
      var parent := threads[cur].parent;
      if parent.Some? {
        var pt := parent.value;
        var k := FindChild(threads[pt].children, cur);
        assert k.Some?;
        var cs := threads[pt].children[k.value];
        threads := threads[pt := threads[pt].(children := threads[pt].children[k.value := cs.(child := None, exitStatus := status)])];
      }
    }

    /** The end of the thread (`process_exit` at line 160): it leaves the
      registry. */
    method Destroy(cur: Tid)
      modifies this`threads
      ensures threads == old(threads) - {cur}
    {
      threads := threads - {cur};
    }
  }
}
