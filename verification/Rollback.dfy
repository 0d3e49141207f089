/**
 * The two-thread replay: where each thread starts in a trace, how far thread 1 is rolled back, and what the
 * rolled-back replay persists compared with the full one.
 */
module Rollback {
  import opened Wrappers
  import opened Memory
  import opened TraceOps
  import opened TraceExtract
  import opened CacheSpec
  import opened ReplayCache
  import opened ReplaySpec
  import P = Persistence

  // ---- Thread starts ----

  /** The operation at the end of a lock or unlock call does not announce its thread. */
  predicate NamesThread(rec: Record) { !rec.OpensLock() && !rec.ClosesLock() && !rec.RecUnknown? }

  /** Allocations and branches emit no operation. */
  predicate Silent(rec: Record) { rec.RecAlloc? || rec.RecBr? }

  datatype Start = Start(tid: int, pos: int)

  predicate HasTid(starts: seq<Start>, tid: int) { exists k :: 0 <= k < |starts| && starts[k].tid == tid }

  /** The last record is the first that announces its thread. */
  predicate StartsThread(recs: seq<Record>)
    requires recs != []
    decreases |recs|, 0
  {
    var n := |recs| - 1;
    LastCounts(recs) && NamesThread(recs[n]) && !HasTid(Starts(recs[..n]), recs[n].tid)
  }

  /** Each thread in order of appearance, with the index that the source records for it: the number of operations so
      far, but one less when a silent record announces the thread. */
  function Starts(recs: seq<Record>): seq<Start>
    decreases |recs|, 1
  {
    if recs == [] then []
    else
      var n := |recs| - 1;
      var pos := |Emitted(recs[..n], false)| - (if Silent(recs[n]) then 1 else 0);
      Starts(recs[..n]) + if StartsThread(recs) then [Start(recs[n].tid, pos)] else []
  }

  /** A record of an unknown kind outside lock calls fails the assertion of the source. */
  predicate MeetsUnknown(recs: seq<Record>) {
    recs != [] && ((LastCounts(recs) && recs[|recs| - 1].RecUnknown?) || MeetsUnknown(recs[..|recs| - 1]))
  }

  /** One more record, as far as the loop below can tell. */
  lemma ScanNext(before: seq<Record>, rec: Record)
    ensures var recs, ops := before + [rec], Emitted(before, false);
            && InLockCall(recs) == (rec.OpensLock() || (!rec.ClosesLock() && InLockCall(before)))
            && LastCounts(recs) == (rec.ClosesLock() || (!rec.OpensLock() && !InLockCall(before)))
            && Emitted(recs, false) == (if LastCounts(recs) then ops + Emit(rec, false, |ops|) else ops)
            && |Emit(rec, false, |ops|)| == (if Silent(rec) || rec.RecUnknown? || rec.OpensLock() then 0 else 1)
            && Starts(recs) == Starts(before) + (if StartsThread(recs)
                                                 then [Start(rec.tid, |ops| - (if Silent(rec) then 1 else 0))] else [])
            && MeetsUnknown(recs) == ((LastCounts(recs) && rec.RecUnknown?) || MeetsUnknown(before))
  {
    NextLocks(before, rec);
    NextOps(before, rec, false);
    LastStart(before + [rec], before, rec);
  }

  lemma LastStart(recs: seq<Record>, before: seq<Record>, rec: Record)
    requires recs != [] && before == recs[..|recs| - 1] && rec == recs[|recs| - 1]
    ensures var n := |Emitted(before, false)| - (if Silent(rec) then 1 else 0);
            Starts(recs) == Starts(before) + (if StartsThread(recs) then [Start(rec.tid, n)] else [])
    ensures MeetsUnknown(recs) == ((LastCounts(recs) && rec.RecUnknown?) || MeetsUnknown(before))
  {
  }

  lemma {:induction false} UnknownStays(recs: seq<Record>, n: nat)
    requires n <= |recs| && MeetsUnknown(recs[..n])
    ensures MeetsUnknown(recs)
    decreases |recs|
  {
    if n == |recs| {
      assert recs[..n] == recs;
    } else {
      assert recs[..|recs| - 1][..n] == recs[..n];
      UnknownStays(recs[..|recs| - 1], n);
    }
  }

  /** What TraceMT keeps of a trace. */
  datatype Threads = Threads(ops: seq<Op>, starts: seq<Start>)

  /** TraceMT.extract_operations */
  method ThreadStarts(recs: seq<Record>) returns (r: Option<Threads>)
    ensures r.None? <==> exists n :: 0 <= n < |recs| && Counted(recs, n) && recs[n].RecUnknown?
    ensures r.Some? ==> Represents(recs, false, r.value.ops) && Found(recs, r.value)
    ensures r.None? <==> MeetsUnknown(recs)
    ensures r.Some? ==> r.value == Threads(Emitted(recs, false), Starts(recs))
  {
    assert recs[..|recs|] == recs;
    UnknownIff(recs, |recs|);
    WhatParsingMeans(recs, false);
    StartsFound(recs);
    r := ReadThreads(recs);
  }

  /** The loop over the records. */
  method ReadThreads(recs: seq<Record>) returns (r: Option<Threads>)
    ensures r.None? <==> MeetsUnknown(recs)
    ensures r.Some? ==> r.value == Threads(Emitted(recs, false), Starts(recs))
  {
    var ops: seq<Op>, starts: seq<Start>, index, skip := [], [], 0, false;
    assert recs[..0] == [];
    for i := 0 to |recs|
      invariant !MeetsUnknown(recs[..i]) && starts == Starts(recs[..i]) && ops == Emitted(recs[..i], false)
      invariant index == |ops| && skip == InLockCall(recs[..i])
    {
      var rec := recs[i];
      assert recs[..i + 1] == recs[..i] + [rec] && recs[..i + 1][..i] == recs[..i];
      ScanNext(recs[..i], rec);
      if rec.OpensLock() {
        skip := true;
      } else if rec.ClosesLock() || !skip {
        if rec.RecUnknown? {
          UnknownStays(recs, i + 1);
          return None;
        }
        var out, _ := EmitRecord(rec, false, index);
        ops := ops + out;
        if Silent(rec) {
          index := index - 1;
        }
        if rec.ClosesLock() {
          skip := false;
        } else if !HasTid(starts, rec.tid) {
          starts := starts + [Start(rec.tid, index)];
        }
        index := index + 1;
      }
    }
    assert recs[..|recs|] == recs;
    r := Some(Threads(ops, starts));
  }

  // ---- When an index is that of the thread's first operation ----

  /** None of the first n operations is of this thread. */
  ghost predicate NoOpOf(ops: seq<Op>, tid: int, n: int) { forall j :: 0 <= j < n && j < |ops| ==> ops[j].tid != tid }

  ghost predicate IsFirstOp(ops: seq<Op>, tid: int, p: int) {
    0 <= p < |ops| && ops[p].tid == tid && NoOpOf(ops, tid, p)
  }

  /** The records that announce the threads. */
  function AnnouncedBy(recs: seq<Record>): (r: seq<nat>)
    ensures forall k :: 0 <= k < |r| ==> r[k] < |recs|
  {
    if recs == [] then []
    else AnnouncedBy(recs[..|recs| - 1]) + if StartsThread(recs) then [|recs| - 1] else []
  }

  /** Record `n` is the first counted one that names its thread. */
  ghost predicate FirstOfThread(recs: seq<Record>, n: nat) {
    && Counted(recs, n) && NamesThread(recs[n])
    && forall m :: 0 <= m < n && Counted(recs, m) && NamesThread(recs[m]) ==> recs[m].tid != recs[n].tid
  }

  /** The threads found so far are those named by a counted record. */
  lemma {:induction false} TidsIff(recs: seq<Record>, n: nat, tid: int)
    requires n <= |recs|
    ensures HasTid(Starts(recs[..n]), tid) <==>
            exists m :: 0 <= m < n && Counted(recs, m) && NamesThread(recs[m]) && recs[m].tid == tid
  {
    if n > 0 {
      TidsIff(recs, n - 1, tid);
      assert recs[..n][..n - 1] == recs[..n - 1];
      CountsIff(recs, n - 1);
      var starts, more := Starts(recs[..n - 1]), Starts(recs[..n]);
      assert starts <= more;
      if HasTid(starts, tid) {
        var k :| 0 <= k < |starts| && starts[k].tid == tid;
        assert more[k].tid == tid;
      }
      if StartsThread(recs[..n]) {
        assert more[|starts|].tid == recs[n - 1].tid;
      }
    }
  }

  /** Threads are announced by exactly those records, in their order. */
  lemma {:induction false} AnnouncedIff(recs: seq<Record>, n: nat)
    requires n <= |recs|
    ensures forall m: nat :: m in AnnouncedBy(recs[..n]) <==> m < n && FirstOfThread(recs, m)
    ensures forall i, j :: 0 <= i < j < |AnnouncedBy(recs[..n])| ==>
              AnnouncedBy(recs[..n])[i] < AnnouncedBy(recs[..n])[j]
  {
    if n > 0 {
      AnnouncedIff(recs, n - 1);
      assert recs[..n][..n - 1] == recs[..n - 1];
      CountsIff(recs, n - 1);
      if NamesThread(recs[n - 1]) {
        TidsIff(recs, n - 1, recs[n - 1].tid);
      }
      assert StartsThread(recs[..n]) <==> FirstOfThread(recs, n - 1);
    }
  }

  /** `firsts` has the first record of each thread, in order. */
  ghost predicate Announces(recs: seq<Record>, firsts: seq<nat>) {
    && (forall m: nat :: m in firsts <==> FirstOfThread(recs, m))
    && (forall i, j :: 0 <= i < j < |firsts| ==> firsts[i] < firsts[j])
  }

  /** Each thread with the number of operations before the record that announces it, less one if that is silent. */
  ghost predicate Found(recs: seq<Record>, t: Threads) {
    exists at, firsts ::
      && Corresponds(recs, false, t.ops, at) && Announces(recs, firsts) && |firsts| == |t.starts|
      && forall k :: 0 <= k < |firsts| ==> StartIs(recs, at, firsts[k], t.starts[k])
  }

  ghost predicate StartIs(recs: seq<Record>, at: seq<nat>, a: nat, start: Start) {
    && a < |recs| && a < |at| && NamesThread(recs[a])
    && start.tid == recs[a].tid && start.pos + (if Silent(recs[a]) then 1 else 0) == at[a]
  }

  lemma StartsFound(recs: seq<Record>)
    ensures Found(recs, Threads(Emitted(recs, false), Starts(recs)))
  {
    var at, firsts := Starting(recs, false), AnnouncedBy(recs);
    assert recs[..|recs|] == recs;
    EmittedCorresponds(recs, false);
    AnnouncedIff(recs, |recs|);
    AnnouncedLength(recs);
    assert Announces(recs, firsts) by {
      forall m: nat ensures m in firsts <==> FirstOfThread(recs, m) {}
    }
    forall k | 0 <= k < |firsts| ensures StartIs(recs, at, firsts[k], Starts(recs)[k]) {
      StartOf(recs, k);
    }
  }

  lemma {:induction false} UnknownIff(recs: seq<Record>, n: nat)
    requires n <= |recs|
    ensures MeetsUnknown(recs[..n]) <==> exists m :: 0 <= m < n && Counted(recs, m) && recs[m].RecUnknown?
  {
    if n > 0 {
      UnknownIff(recs, n - 1);
      assert recs[..n][..n - 1] == recs[..n - 1];
      CountsIff(recs, n - 1);
    }
  }

  /** Where a start comes from, and that its place in the operations does not change later. */
  lemma {:induction false} StartOf(recs: seq<Record>, k: nat)
    requires k < |Starts(recs)|
    ensures |AnnouncedBy(recs)| == |Starts(recs)|
    ensures var a, start, ops := AnnouncedBy(recs)[k], Starts(recs)[k], Emitted(recs[..AnnouncedBy(recs)[k]], false);
            && NamesThread(recs[a]) && !HasTid(Starts(recs[..a]), start.tid)
            && start == Start(recs[a].tid, |ops| - if Silent(recs[a]) then 1 else 0)
            && ops <= Emitted(recs, false)
            && (!Silent(recs[a]) ==> |ops| < |Emitted(recs, false)| && Emitted(recs, false)[|ops|].tid == start.tid)
  {
    var front, rec := recs[..|recs| - 1], recs[|recs| - 1];
    assert recs == front + [rec];
    ScanNext(front, rec);
    AnnouncedLength(recs);
    if k < |Starts(front)| {
      StartOf(front, k);
      assert front[..AnnouncedBy(front)[k]] == recs[..AnnouncedBy(front)[k]];
    } else if !Silent(rec) {
      EmitsOwnOp(rec, |Emitted(front, false)|);
    }
  }

  lemma {:induction false} AnnouncedLength(recs: seq<Record>)
    ensures |AnnouncedBy(recs)| == |Starts(recs)|
  {
    if recs != [] {
      AnnouncedLength(recs[..|recs| - 1]);
    }
  }

  /** The announcing record `a` gives its thread the right index. A record that emits an operation does if no operation
      of the thread comes before; a silent one does if the operation just before is the thread's first. */
  ghost predicate RightlyAnnounced(recs: seq<Record>, a: nat)
    requires a < |recs| && NamesThread(recs[a])
  {
    var ops, tid := Emitted(recs[..a], false), recs[a].tid;
    if Silent(recs[a]) then ops != [] && IsFirstOp(ops, tid, |ops| - 1) else NoOpOf(ops, tid, |ops|)
  }

  /** An index is the position of its thread's first operation if and only if the thread is rightly announced. */
  lemma StartsExact(recs: seq<Record>, k: nat)
    requires k < |Starts(recs)|
    ensures |AnnouncedBy(recs)| == |Starts(recs)| && NamesThread(recs[AnnouncedBy(recs)[k]])
    ensures IsFirstOp(Emitted(recs, false), Starts(recs)[k].tid, Starts(recs)[k].pos) <==>
            RightlyAnnounced(recs, AnnouncedBy(recs)[k])
  {
    StartOf(recs, k);
    var a := AnnouncedBy(recs)[k];
    SamePrefix(Emitted(recs[..a], false), Emitted(recs, false), recs[a].tid, Starts(recs)[k].pos);
  }

  lemma SamePrefix(ops: seq<Op>, all: seq<Op>, tid: int, p: int)
    requires ops <= all && p <= |ops|
    ensures NoOpOf(ops, tid, p) <==> NoOpOf(all, tid, p)
    ensures p < |ops| ==> (IsFirstOp(ops, tid, p) <==> IsFirstOp(all, tid, p))
  {
    assert forall j :: 0 <= j < |ops| ==> ops[j] == all[j];
  }

  /** Some lock or unlock call of this thread has ended. */
  ghost predicate EndsLockCall(recs: seq<Record>, tid: int) {
    exists r :: 0 <= r < |recs| && recs[r].ClosesLock() && recs[r].tid == tid
  }

  /** Before its announcement a thread has operations only at the ends of lock and unlock calls: so a thread announced
      by an operation gets the right index if and only if none of its lock or unlock calls ended before. */
  lemma {:induction false} OpsBeforeAnnounced(recs: seq<Record>, tid: int)
    requires !HasTid(Starts(recs), tid)
    ensures NoOpOf(Emitted(recs, false), tid, |Emitted(recs, false)|) <==> !EndsLockCall(recs, tid)
  {
    if recs != [] {
      var front, rec := recs[..|recs| - 1], recs[|recs| - 1];
      assert recs == front + [rec];
      ScanNext(front, rec);
      StaysUnannounced(recs, tid);
      OpsBeforeAnnounced(front, tid);
      NoOpOfNext(front, rec, tid);
      LockEndNext(front, rec, tid);
    }
  }

  lemma StaysUnannounced(recs: seq<Record>, tid: int)
    requires recs != [] && !HasTid(Starts(recs), tid)
    ensures !HasTid(Starts(recs[..|recs| - 1]), tid) && (StartsThread(recs) ==> recs[|recs| - 1].tid != tid)
  {
    var front := Starts(recs[..|recs| - 1]);
    assert forall k :: 0 <= k < |front| ==> Starts(recs)[k] == front[k];
    if StartsThread(recs) {
      assert Starts(recs)[|front|].tid == recs[|recs| - 1].tid;
    }
  }

  lemma LockEndNext(front: seq<Record>, rec: Record, tid: int)
    ensures EndsLockCall(front + [rec], tid) <==> EndsLockCall(front, tid) || (rec.ClosesLock() && rec.tid == tid)
  {
    var recs := front + [rec];
    assert forall r :: 0 <= r < |front| ==> recs[r] == front[r];
    assert recs[|front|] == rec;
  }

  lemma NoOpOfNext(front: seq<Record>, rec: Record, tid: int)
    requires !HasTid(Starts(front), tid) && (StartsThread(front + [rec]) ==> rec.tid != tid)
    ensures var ops, all := Emitted(front, false), Emitted(front + [rec], false);
            NoOpOf(all, tid, |all|) <==> NoOpOf(ops, tid, |ops|) && !(rec.ClosesLock() && rec.tid == tid)
  {
    var ops, all := Emitted(front, false), Emitted(front + [rec], false);
    ScanNext(front, rec);
    assert (front + [rec])[..|front|] == front;
    assert forall j :: 0 <= j < |ops| ==> all[j] == ops[j];
    if |all| > |ops| {
      assert all[|ops|].tid == rec.tid;
    }
  }

  /** Inputs that show both ways to go wrong and one way to be right: a thread announced by an allocation gets the index
      of another thread's operation; a thread whose first operation ends a lock call gets a later index; a thread
      announced by an allocation right after its first operation gets the right one. */
  lemma SilentStart()
    ensures var recs := [RecFence(1), RecAlloc(2, 0, 8)];
            Starts(recs) == [Start(1, 0), Start(2, 0)] && Emitted(recs, false) == [Fence(0, 1)]
  {
    var one := [RecFence(1)];
    OneRecord(RecFence(1));
    assert one + [RecAlloc(2, 0, 8)] == [RecFence(1), RecAlloc(2, 0, 8)];
    NewThread(one, RecAlloc(2, 0, 8));
  }

  lemma LockEndStart()
    ensures var recs := [RecFence(1), RecLockBegin, RecLockEnd(2, 0), RecFence(2)];
            && Starts(recs) == [Start(1, 0), Start(2, 2)]
            && Emitted(recs, false) == [Fence(0, 1), Lock(0, 1, 2), Fence(2, 2)]
            && IsFirstOp(Emitted(recs, false), 2, 1)
  {
    var one, locked := [RecFence(1)], [RecFence(1), RecLockBegin, RecLockEnd(2, 0)];
    OneRecord(RecFence(1));
    assert locked == one + [RecLockBegin, RecLockEnd(2, 0)];
    LockCall(one, 2, 0);
    assert locked + [RecFence(2)] == [RecFence(1), RecLockBegin, RecLockEnd(2, 0), RecFence(2)];
    NewThread(locked, RecFence(2));
  }

  lemma SilentButRight()
    ensures var recs := [RecLockBegin, RecLockEnd(2, 0), RecAlloc(2, 0, 8)];
            && Starts(recs) == [Start(2, 0)] && Emitted(recs, false) == [Lock(0, 0, 2)]
            && IsFirstOp(Emitted(recs, false), 2, 0)
  {
    var locked := [RecLockBegin, RecLockEnd(2, 0)];
    assert [] + locked == locked;
    LockCall([], 2, 0);
    assert locked + [RecAlloc(2, 0, 8)] == [RecLockBegin, RecLockEnd(2, 0), RecAlloc(2, 0, 8)];
    NewThread(locked, RecAlloc(2, 0, 8));
  }

  /** A lock call emits one operation and announces nobody. */
  lemma LockCall(recs: seq<Record>, tid: int, addr: nat)
    ensures var all := recs + [RecLockBegin, RecLockEnd(tid, addr)];
            && Starts(all) == Starts(recs) && !InLockCall(all)
            && Emitted(all, false) == Emitted(recs, false) + [Lock(addr, |Emitted(recs, false)|, tid)]
  {
    var mid := recs + [RecLockBegin];
    ScanNext(recs, RecLockBegin);
    assert mid + [RecLockEnd(tid, addr)] == recs + [RecLockBegin, RecLockEnd(tid, addr)];
    ScanNext(mid, RecLockEnd(tid, addr));
  }

  lemma NewThread(recs: seq<Record>, rec: Record)
    requires !InLockCall(recs) && NamesThread(rec) && !HasTid(Starts(recs), rec.tid)
    ensures var n := |Emitted(recs, false)|;
            && Starts(recs + [rec]) == Starts(recs) + [Start(rec.tid, n - if Silent(rec) then 1 else 0)]
            && Emitted(recs + [rec], false) == Emitted(recs, false) + Emit(rec, false, n)
  {
    ScanNext(recs, rec);
    assert (recs + [rec])[..|recs|] == recs;
  }

  lemma OneRecord(rec: Record)
    requires NamesThread(rec) && !Silent(rec)
    ensures Starts([rec]) == [Start(rec.tid, 0)] && Emitted([rec], false) == Emit(rec, false, 0) && !InLockCall([rec])
  {
    assert [rec] == [] + [rec] && [rec][..0] == [];
    ScanNext([], rec);
  }

  // ---- Order of the indexes ----

  /** No thread is announced by a silent record. */
  ghost predicate StartsWithOps(recs: seq<Record>) {
    recs == [] || (StartsWithOps(recs[..|recs| - 1]) && (StartsThread(recs) ==> !Silent(recs[|recs| - 1])))
  }

  /** An index is never past the last operation, and is at least that of an earlier thread. */
  lemma {:induction false} StartBelow(recs: seq<Record>, k: nat)
    requires k < |Starts(recs)|
    ensures -1 <= Starts(recs)[k].pos < |Emitted(recs, false)|
  {
    var front, rec := recs[..|recs| - 1], recs[|recs| - 1];
    assert recs == front + [rec];
    ScanNext(front, rec);
    if k < |Starts(front)| {
      StartBelow(front, k);
    }
  }

  lemma {:induction false} StartsInOrder(recs: seq<Record>, j: nat, k: nat)
    requires j < k < |Starts(recs)|
    ensures Starts(recs)[j].tid != Starts(recs)[k].tid && Starts(recs)[j].pos <= Starts(recs)[k].pos
    ensures StartsWithOps(recs) ==> Starts(recs)[j].pos < Starts(recs)[k].pos
  {
    var front, rec := recs[..|recs| - 1], recs[|recs| - 1];
    assert recs == front + [rec];
    ScanNext(front, rec);
    if k < |Starts(front)| {
      StartsInOrder(front, j, k);
    } else {
      StartBelow(front, j);
    }
  }

  /** Unless a silent record announces a thread, each index is the position of an operation of its thread. */
  lemma {:induction false} StartsAreOps(recs: seq<Record>, k: nat)
    requires StartsWithOps(recs) && k < |Starts(recs)|
    ensures 0 <= Starts(recs)[k].pos < |Emitted(recs, false)|
    ensures Emitted(recs, false)[Starts(recs)[k].pos].tid == Starts(recs)[k].tid
  {
    var front, rec := recs[..|recs| - 1], recs[|recs| - 1];
    assert recs == front + [rec];
    ScanNext(front, rec);
    var ops := Emitted(front, false);
    assert ops <= Emitted(recs, false) by { NextOps(front, rec, false); }
    if k < |Starts(front)| {
      StartsAreOps(front, k);
      assert Emitted(recs, false)[Starts(front)[k].pos] == ops[Starts(front)[k].pos];
    } else {
      assert Emitted(recs, false) == ops + Emit(rec, false, |ops|) by { NextOps(front, rec, false); }
      EmitsOwnOp(rec, |ops|);
    }
  }

  lemma EmitsOwnOp(rec: Record, id: int)
    requires NamesThread(rec) && !Silent(rec)
    ensures |Emit(rec, false, id)| == 1 && Emit(rec, false, id)[0].tid == rec.tid
  {
  }

  // ---- The roll-back index ----

  /** Scans the positions from the one before `start2` down to, and without, `start1`. */
  method GetRollBackIdx(ops: seq<Op>, start1: nat, start2: nat) returns (r: Option<nat>)
    requires start1 <= start2 <= |ops|
    ensures r.Some? ==> start1 < r.value < start2 && (ops[r.value].Store? || ops[r.value].Fence?)
    ensures r.Some? ==> forall i :: r.value < i < start2 ==> !ops[i].Store? && !ops[i].Fence?
    ensures r.None? <==> forall i :: start1 < i < start2 ==> !ops[i].Store? && !ops[i].Fence?
  {
    var idx := start2 - 1;
    while idx > start1
      invariant start1 - 1 <= idx < start2
      invariant forall i :: idx < i < start2 ==> !ops[i].Store? && !ops[i].Fence?
    {
      if ops[idx].Store? || ops[idx].Fence? {
        return Some(idx);
      }
      idx := idx - 1;
    }
    r := None;
  }

  // ---- The replay ----

  lemma {:induction false} FlatFromConcat(s: Flat, xs: seq<P.Event>, ys: seq<P.Event>)
    ensures FlatFrom(s, xs + ys) == FlatFrom(FlatFrom(s, xs), ys)
    decreases |ys|
  {
    if ys == [] {
      assert xs + ys == xs;
    } else {
      assert (xs + ys)[..|xs + ys| - 1] == xs + ys[..|ys| - 1];
      FlatFromConcat(s, xs, ys[..|ys| - 1]);
    }
  }

  lemma ReplayInParts(s: Flat, e1: seq<P.Event>, e2: seq<P.Event>, e3: seq<P.Event>)
    ensures FlatFrom(FlatFrom(FlatStep(FlatFrom(s, e1), P.WriteBack), e2), e3)
         == FlatFrom(s, e1 + [P.WriteBack] + e2 + e3)
  {
    assert (e1 + [P.WriteBack])[..|e1|] == e1;
    FlatFromConcat(s, e1 + [P.WriteBack], e2);
    FlatFromConcat(s, e1 + [P.WriteBack] + e2, e3);
  }

  /** Every store of these operations lies in the file. */
  ghost predicate InFile(ops: seq<Op>, cache: ReplayCache) {
    forall i :: 0 <= i < |ops| && ops[i].Store? ==> cache.file.InRange(ops[i].w)
  }

  method AcceptSlice(ops: seq<Op>, lo: nat, hi: nat, cache: ReplayCache)
    requires cache.Valid() && InFile(ops, cache) && lo <= hi <= |ops|
    modifies cache, cache.file.data
    ensures cache.Valid() && cache.Abs() == FlatFrom(old(cache.Abs()), ReplayEvents(ops[lo..hi]))
  {
    cache.AcceptOps(ReplayEvents(ops[lo..hi]));
  }

  /** The crash image of a two-thread trace; None when the source would fail for want of a roll-back index. */
  method GenCrashImg(ops: seq<Op>, start1: nat, start2: nat, cache: ReplayCache) returns (cut: Option<nat>)
    requires start1 <= start2 <= |ops| && InFile(ops, cache)
    requires cache.Valid() && cache.ops == []
    modifies cache, cache.file.data
    ensures cut.None? <==> forall i :: start1 < i < start2 ==> !ops[i].Store? && !ops[i].Fence?
    ensures cut.Some? ==> start1 < cut.value <= start2
    ensures cut.Some? ==> forall i :: cut.value <= i < start2 ==> !ops[i].Store? && !ops[i].Fence?
    ensures cut.Some? ==> RolledBack(old(cache.file.Img()), ops, start1, cut.value, start2, cache.Abs())
    ensures cut.Some? ==> cache.Abs() == FlatRun(old(cache.file.Img()), ReplayOf(ops, start1, cut.value, start2))
  {
    ghost var s0 := cache.Abs();
    var idx := GetRollBackIdx(ops, start1, start2);
    AcceptSlice(ops, 0, start1, cache);
    cache.WriteBackAllStores();
    if idx.None? {
      return None;
    }
    cut := Some(idx.value + 1);
    AcceptSlice(ops, start1, cut.value, cache);
    AcceptSlice(ops, start2, |ops|, cache);
    assert ops[0..start1] == ops[..start1] && ops[start2..|ops|] == ops[start2..];
    ReplayInParts(s0, ReplayEvents(ops[..start1]), ReplayEvents(ops[start1..cut.value]), ReplayEvents(ops[start2..]));
    ReplayRolledBack(s0.img, ops, start1, cut.value, start2);
  }

  /** How gen_crash_img ends: the trace has an unknown record; it does not name three threads, and nothing is done;
      an index is -1; there is no roll-back index, and the source fails; or the replay is done. */
  datatype Outcome = BadTrace | NotThreeThreads | BeforeTrace | NoRollBack | Replayed(cut: nat)

  /** No store and no fence strictly between two positions. */
  ghost predicate NothingBetween(ops: seq<Op>, lo: int, hi: int) {
    forall i :: 0 <= i < |ops| && lo < i < hi ==> !ops[i].Store? && !ops[i].Fence?
  }

  ghost predicate RecordsInFile(recs: seq<Record>, cache: ReplayCache) {
    forall i :: 0 <= i < |recs| && recs[i].RecStore? ==> cache.file.InRange(Write(recs[i].addr, recs[i].bytes, 0))
  }

  lemma {:induction false} EmittedInFile(recs: seq<Record>, cache: ReplayCache)
    requires RecordsInFile(recs, cache)
    ensures InFile(Emitted(recs, false), cache)
  {
    if recs != [] {
      var front, rec := recs[..|recs| - 1], recs[|recs| - 1];
      assert recs == front + [rec];
      EmittedInFile(front, cache);
      ScanNext(front, rec);
      assert rec.RecStore? ==> cache.file.InRange(Write(rec.addr, rec.bytes, 0));
    }
  }

  /** gen_crash_img from the records on: the threads are found, and the replay is cut between the indexes recorded for
      the second and the third. */
  method ReplayTrace(recs: seq<Record>, cache: ReplayCache) returns (r: Outcome)
    requires cache.Valid() && cache.ops == [] && RecordsInFile(recs, cache)
    modifies cache, cache.file.data
    ensures r.BadTrace? <==> exists n :: 0 <= n < |recs| && Counted(recs, n) && recs[n].RecUnknown?
    ensures r.BadTrace? || Found(recs, Threads(Emitted(recs, false), Starts(recs)))
    ensures r.BadTrace? <==> MeetsUnknown(recs)
    ensures r.NotThreeThreads? <==> !MeetsUnknown(recs) && |Starts(recs)| != 3
    ensures r.BeforeTrace? <==> !MeetsUnknown(recs) && |Starts(recs)| == 3 && Starts(recs)[1].pos < 0
    ensures r.NoRollBack? || r.Replayed? ==> |Starts(recs)| == 3
    ensures r.BadTrace? || r.NotThreeThreads? ==> cache.Abs() == old(cache.Abs())
    ensures r.NoRollBack? <==>
            && !MeetsUnknown(recs) && |Starts(recs)| == 3 && Starts(recs)[1].pos >= 0
            && NothingBetween(Emitted(recs, false), Starts(recs)[1].pos, Starts(recs)[2].pos)
    ensures r.Replayed? ==>
              var ops, start1, start2 := Emitted(recs, false), Starts(recs)[1].pos, Starts(recs)[2].pos;
              && 0 <= start1 < r.cut <= start2 <= |ops|
              && (forall i :: r.cut <= i < start2 ==> !ops[i].Store? && !ops[i].Fence?)
              && RolledBack(old(cache.file.Img()), ops, start1, r.cut, start2, cache.Abs())
              && cache.Abs() == FlatRun(old(cache.file.Img()), ReplayOf(ops, start1, r.cut, start2))
  {
    var threads := ThreadStarts(recs);
    if threads.None? {
      return BadTrace;
    }
    var ops, starts := threads.value.ops, threads.value.starts;
    if |starts| != 3 {
      return NotThreeThreads;
    }
    if starts[1].pos < 0 {
      return BeforeTrace;
    }
    StartsInOrder(recs, 1, 2);
    StartBelow(recs, 2);
    EmittedInFile(recs, cache);
    var cut := GenCrashImg(ops, starts[1].pos, starts[2].pos, cache);
    r := if cut.None? then NoRollBack else Replayed(cut.value);
  }

  // ---- What rolling back loses ----

  /** Same stores in the same order, and none more persistent in `h` than in `h'`. */
  ghost predicate LessPersistent(h: seq<P.Entry>, h': seq<P.Entry>) {
    |h| == |h'| && forall i :: 0 <= i < |h| ==> h[i].w == h'[i].w && h[i].mark.Rank() <= h'[i].mark.Rank()
  }

  lemma LessPersistentStep(h: seq<P.Entry>, h': seq<P.Entry>, ev: P.Event)
    requires LessPersistent(h, h')
    ensures LessPersistent(P.Extend(h, ev), P.Extend(h', ev))
    ensures !ev.Store? ==> LessPersistent(h, P.Extend(h', ev))
  {
  }

  /** Leaving out events that are neither stores nor fences makes no store more persistent, whatever follows. */
  lemma {:induction false} CutIsLessPersistent(xs: seq<P.Event>, tail: seq<P.Event>, ys: seq<P.Event>)
    requires forall i :: 0 <= i < |tail| ==> !tail[i].Store?
    ensures LessPersistent(P.History(xs + ys), P.History(xs + tail + ys))
    decreases |ys|, |tail|
  {
    if ys != [] {
      assert (xs + ys)[..|xs + ys| - 1] == xs + ys[..|ys| - 1];
      assert (xs + tail + ys)[..|xs + tail + ys| - 1] == xs + tail + ys[..|ys| - 1];
      CutIsLessPersistent(xs, tail, ys[..|ys| - 1]);
      LessPersistentStep(P.History(xs + ys[..|ys| - 1]), P.History(xs + tail + ys[..|ys| - 1]), ys[|ys| - 1]);
    } else if tail != [] {
      assert xs + ys == xs && xs + tail + ys == xs + tail;
      assert (xs + tail)[..|xs + tail| - 1] == xs + tail[..|tail| - 1];
      assert xs + tail[..|tail| - 1] + ys == xs + tail[..|tail| - 1];
      CutIsLessPersistent(xs, tail[..|tail| - 1], ys);
      LessPersistentStep(P.History(xs), P.History(xs + tail[..|tail| - 1]), tail[|tail| - 1]);
    } else {
      assert xs + tail + ys == xs + ys;
    }
  }

  lemma SubsetNext(xs: seq<Write>, ys: seq<Write>, w: Write)
    requires multiset(xs) <= multiset(ys)
    ensures multiset(xs + [w]) <= multiset(ys + [w]) && multiset(xs) <= multiset(ys + [w])
  {
  }

  lemma {:induction false} DurableSubset(h: seq<P.Entry>, h': seq<P.Entry>)
    requires LessPersistent(h, h')
    ensures multiset(P.Ranked(h, 2, 3)) <= multiset(P.Ranked(h', 2, 3))
  {
    if h != [] {
      var n := |h| - 1;
      DurableSubset(h[..n], h'[..n]);
      P.RankedLast(h, 2, 3);
      P.RankedLast(h', 2, 3);
      SubsetNext(P.Ranked(h[..n], 2, 3), P.Ranked(h'[..n], 2, 3), h[n].w);
      assert P.Ranked(h[..n], 2, 3) + [] == P.Ranked(h[..n], 2, 3);
      assert P.Ranked(h'[..n], 2, 3) + [] == P.Ranked(h'[..n], 2, 3);
    }
  }

  /** The rolled-back replay sees every store of the full one, each at most as persistent. */
  lemma RollbackPersistsSubset(ops: seq<Op>, start1: nat, cut: nat, start2: nat)
    requires start1 <= cut <= start2 <= |ops|
    requires forall i :: cut <= i < start2 ==> !ops[i].Store? && !ops[i].Fence?
    ensures LessPersistent(P.History(ReplayOf(ops, start1, cut, start2)),
                           P.History(ReplayOf(ops, start1, start2, start2)))
  {
    var xs := ReplayEvents(ops[..start1]) + [P.WriteBack] + ReplayEvents(ops[start1..cut]);
    var tail := ReplayEvents(ops[cut..start2]);
    assert ReplayEvents(ops[start1..start2]) == ReplayEvents(ops[start1..cut]) + tail;
    assert ReplayOf(ops, start1, start2, start2) == xs + tail + ReplayEvents(ops[start2..]);
    CutIsLessPersistent(xs, tail, ReplayEvents(ops[start2..]));
  }

  /** The image of the rolled-back replay: its durable stores and no others are written, each once; they are among
      those the full replay writes; and the list holds the rest. Stores may span cachelines. */
  lemma RollbackImage(init: Image, ops: seq<Op>, start1: nat, cut: nat, start2: nat)
    requires start1 <= cut <= start2 <= |ops|
    requires forall i :: cut <= i < start2 ==> !ops[i].Store? && !ops[i].Fence?
    ensures var evs, full := ReplayOf(ops, start1, cut, start2), ReplayOf(ops, start1, start2, start2);
            && FlatRun(init, evs).img == PutAll(init, Written(evs))
            && FlatRun(init, evs).ops == P.Keep(P.History(evs), 0, 2)
            && multiset(Written(evs)) == multiset(P.Ranked(P.History(evs), 2, 3))
            && multiset(Written(evs)) <= multiset(Written(full))
  {
    var evs, full := ReplayOf(ops, start1, cut, start2), ReplayOf(ops, start1, start2, start2);
    FlatRunWritten(init, evs);
    WrittenAreDurable(evs);
    WrittenAreDurable(full);
    RollbackPersistsSubset(ops, start1, cut, start2);
    DurableSubset(P.History(evs), P.History(full));
  }

  /** When stores fit in a line, writing them in program order gives that image. */
  lemma RollbackImageInOrder(init: Image, ops: seq<Op>, start1: nat, cut: nat, start2: nat)
    requires start1 <= cut <= start2 <= |ops|
    requires forall i :: 0 <= i < |ops| && ops[i].Store? ==> ops[i].w.Fits()
    ensures var evs := ReplayOf(ops, start1, cut, start2);
            FlatRun(init, evs).img == PutAll(init, P.Ranked(P.History(evs), 2, 3))
  {
    var evs := ReplayOf(ops, start1, cut, start2);
    assert P.Fitting(evs);
    ReplayTracks(init, evs);
  }
}
