/** extract_operations: from the records of a trace file to numbered operations, API ranges and allocations. */
module TraceExtract {
  import opened Memory
  import opened TraceOps
  import opened TraceParser

  datatype Record =
    | RecLockBegin
    | RecUnLockBegin
    | RecLockEnd(tid: int, addr: nat)
    | RecUnLockEnd(tid: int, addr: nat)
    | RecStore(tid: int, addr: nat, bytes: seq<Byte>)
    | RecLoad(tid: int, addr: nat, size: nat)
    | RecFlush(tid: int, addr: nat)
    | RecFence(tid: int)
    | RecLock(tid: int, addr: nat)
    | RecUnLock(tid: int, addr: nat)
    | RecAPIBegin(tid: int)
    | RecAPIEnd(tid: int)
    | RecAlloc(tid: int, addr: nat, size: nat)
    | RecBr(tid: int)
    | RecUnknown
  {
    predicate OpensLock() { RecLockBegin? || RecUnLockBegin? }
    predicate ClosesLock() { RecLockEnd? || RecUnLockEnd? }
  }

  // ---- What each record stands for ----

  /** Inside a lock or unlock call after these records. */
  predicate InLockCall(recs: seq<Record>) {
    recs != [] &&
    var last := recs[|recs| - 1];
    last.OpensLock() || (!last.ClosesLock() && InLockCall(recs[..|recs| - 1]))
  }

  /** The last record is looked at: not inside a lock call, or the end of one. */
  predicate LastCounts(recs: seq<Record>)
    requires recs != []
  {
    var last := recs[|recs| - 1];
    last.ClosesLock() || (!last.OpensLock() && !InLockCall(recs[..|recs| - 1]))
  }

  function StoresOp(ws: seq<Write>, tid: int): seq<Op> {
    seq(|ws|, i requires 0 <= i < |ws| => Store(ws[i], tid))
  }

  /** The operations of one record, numbered from `id`. With `onlyPersist` loads and locks are dropped and
      stores are split; allocations and branches never are operations. */
  function Emit(rec: Record, onlyPersist: bool, id: int): seq<Op> {
    match rec
    case RecStore(tid, a, bytes) =>
      if onlyPersist then StoresOp(Split(a, bytes, id), tid) else [Store(Write(a, bytes, id), tid)]
    case RecLoad(tid, a, n) => if onlyPersist then [] else [Load(a, n, id, tid)]
    case RecFlush(tid, a) => [Flush(a, id, tid)]
    case RecFence(tid) => [Fence(id, tid)]
    case RecLock(tid, a) => if onlyPersist then [] else [Lock(a, id, tid)]
    case RecLockEnd(tid, a) => if onlyPersist then [] else [Lock(a, id, tid)]
    case RecUnLock(tid, a) => if onlyPersist then [] else [UnLock(a, id, tid)]
    case RecUnLockEnd(tid, a) => if onlyPersist then [] else [UnLock(a, id, tid)]
    case RecAPIBegin(tid) => [APIBegin(id, tid)]
    case RecAPIEnd(tid) => [APIEnd(id, tid)]
    case _ => []
  }

  function Emitted(recs: seq<Record>, onlyPersist: bool): seq<Op> {
    if recs == [] then []
    else
      var front := Emitted(recs[..|recs| - 1], onlyPersist);
      if LastCounts(recs) then front + Emit(recs[|recs| - 1], onlyPersist, |front|) else front
  }

  /** Where the API call that is open after these operations began, or -1. */
  function OpenAt(ops: seq<Op>): (p: int)
    ensures -1 <= p < |ops| && (p >= 0 ==> ops[p].APIBegin?)
  {
    if ops == [] then -1
    else if ops[|ops| - 1].APIBegin? then |ops| - 1
    else if ops[|ops| - 1].APIEnd? then -1
    else OpenAt(ops[..|ops| - 1])
  }

  /** The API calls: from their APIBegin to their APIEnd, or to the APIBegin that cuts them off. */
  function RangesOf(ops: seq<Op>): seq<(int, int)> {
    if ops == [] then []
    else
      var n := |ops| - 1;
      var front := RangesOf(ops[..n]);
      if ops[n].APIEnd? || (ops[n].APIBegin? && OpenAt(ops[..n]) != -1) then front + [(OpenAt(ops[..n]), n)] else front
  }

  /** A record that makes the parser stop: an unknown one, or the end of a call that never began. */
  predicate LastFails(recs: seq<Record>, onlyPersist: bool)
    requires recs != []
  {
    var last := recs[|recs| - 1];
    LastCounts(recs) &&
    (last.RecUnknown? || (last.RecAPIEnd? && OpenAt(Emitted(recs[..|recs| - 1], onlyPersist)) == -1))
  }

  predicate Fails(recs: seq<Record>, onlyPersist: bool) {
    recs != [] && (LastFails(recs, onlyPersist) || Fails(recs[..|recs| - 1], onlyPersist))
  }

  /** The allocations made inside API calls, by the number of the call. */
  function AllocsOf(recs: seq<Record>, onlyPersist: bool): map<int, seq<(nat, nat)>> {
    if recs == [] then map[]
    else
      var n := |recs| - 1;
      var m, last := AllocsOf(recs[..n], onlyPersist), recs[n];
      if LastCounts(recs) then AddAlloc(m, last, OpenAt(Emitted(recs[..n], onlyPersist)), Calls(recs[..n]) - 1) else m
  }

  function AddAlloc(m: map<int, seq<(nat, nat)>>, rec: Record, begin: int, call: int): map<int, seq<(nat, nat)>> {
    if rec.RecAlloc? && begin != -1 then m[call := (if call in m then m[call] else []) + [(rec.addr, rec.size)]] else m
  }

  /** How many API calls have begun. */
  function Calls(recs: seq<Record>): nat {
    if recs == [] then 0
    else Calls(recs[..|recs| - 1]) + (if LastCounts(recs) && recs[|recs| - 1].RecAPIBegin? then 1 else 0)
  }

  // ---- The parser ----

  datatype Result =
    | Parsed(ops: seq<Op>, ranges: seq<(int, int)>, allocs: map<int, seq<(nat, nat)>>)
    | Failed

  /** The record kinds that emit operations, with the index that the next one gets. */
  method EmitRecord(rec: Record, onlyPersist: bool, start: int) returns (out: seq<Op>, index: int)
    ensures out == Emit(rec, onlyPersist, start) && index == start + |out|
  {
    out, index := [], start;
    match rec
    case RecStore(tid, a, bytes) =>
      if !onlyPersist {
        out := [Store(Write(a, bytes, index), tid)];
      } else {
        var ws := GetStores(a, bytes, index);
        out := StoresOp(ws, tid);
        index := index + |ws| - 1;
      }
      index := index + 1;
    case RecLoad(tid, a, n) =>
      if !onlyPersist { out := [Load(a, n, index, tid)]; } else { index := index - 1; }
      index := index + 1;
    case RecFlush(tid, a) => out := [Flush(a, index, tid)]; index := index + 1;
    case RecFence(tid) => out := [Fence(index, tid)]; index := index + 1;
    case RecLock(tid, a) =>
      if !onlyPersist { out := [Lock(a, index, tid)]; } else { index := index - 1; }
      index := index + 1;
    case RecLockEnd(tid, a) =>
      if !onlyPersist { out := [Lock(a, index, tid)]; } else { index := index - 1; }
      index := index + 1;
    case RecUnLock(tid, a) =>
      if !onlyPersist { out := [UnLock(a, index, tid)]; } else { index := index - 1; }
      index := index + 1;
    case RecUnLockEnd(tid, a) =>
      if !onlyPersist { out := [UnLock(a, index, tid)]; } else { index := index - 1; }
      index := index + 1;
    case RecAPIBegin(tid) => out := [APIBegin(index, tid)]; index := index + 1;
    case RecAPIEnd(tid) => out := [APIEnd(index, tid)]; index := index + 1;
    case RecAlloc(_, _, _) => index := index - 1; index := index + 1;
    case RecBr(_) => index := index - 1; index := index + 1;
    case _ =>
  }

  /** The local variables of the parsing loop. */
  datatype State = State(ops: seq<Op>, ranges: seq<(int, int)>, allocs: map<int, seq<(nat, nat)>>,
                         index: int, begin: int, call: int, skip: bool)

  ghost predicate After(recs: seq<Record>, onlyPersist: bool, st: State) {
    OpsFit(recs, onlyPersist, st) && BordersFit(st) && st.allocs == AllocsOf(recs, onlyPersist)
  }

  ghost predicate OpsFit(recs: seq<Record>, onlyPersist: bool, st: State) {
    && st.ops == Emitted(recs, onlyPersist) && st.index == |st.ops|
    && st.call == Calls(recs) - 1 && st.skip == InLockCall(recs)
  }

  predicate BordersFit(st: State) { st.begin == OpenAt(st.ops) && st.ranges == RangesOf(st.ops) }

  function Next(st: State, rec: Record, out: seq<Op>): State {
    State(st.ops + out,
          if rec.RecAPIEnd? || (rec.RecAPIBegin? && st.begin != -1)
          then st.ranges + [(st.begin, st.index)] else st.ranges,
          AddAlloc(st.allocs, rec, st.begin, st.call),
          st.index + |out|,
          if rec.RecAPIBegin? then st.index else if rec.RecAPIEnd? then -1 else st.begin,
          if rec.RecAPIBegin? then st.call + 1 else st.call,
          false)
  }

  lemma OpsFitNext(st: State, rec: Record, onlyPersist: bool, before: seq<Record>)
    requires OpsFit(before, onlyPersist, st) && LastCounts(before + [rec])
    ensures OpsFit(before + [rec], onlyPersist, Next(st, rec, Emit(rec, onlyPersist, st.index)))
  {
    NextLocks(before, rec);
    NextOps(before, rec, onlyPersist);
  }

  lemma BordersFitNext(st: State, rec: Record, onlyPersist: bool)
    requires BordersFit(st) && st.index == |st.ops|
    ensures BordersFit(Next(st, rec, Emit(rec, onlyPersist, st.index)))
  {
    CallBorders(st.ops, rec, onlyPersist);
  }

  lemma AllocsFitNext(st: State, rec: Record, onlyPersist: bool, before: seq<Record>)
    requires After(before, onlyPersist, st) && LastCounts(before + [rec])
    ensures AddAlloc(st.allocs, rec, st.begin, st.call) == AllocsOf(before + [rec], onlyPersist)
  {
    NextAllocs(before, rec, onlyPersist);
  }

  lemma AfterNext(st: State, rec: Record, onlyPersist: bool, before: seq<Record>)
    requires After(before, onlyPersist, st) && LastCounts(before + [rec])
    ensures After(before + [rec], onlyPersist, Next(st, rec, Emit(rec, onlyPersist, st.index)))
  {
    OpsFitNext(st, rec, onlyPersist, before);
    BordersFitNext(st, rec, onlyPersist);
    AllocsFitNext(st, rec, onlyPersist, before);
  }

  /** One record that the loop does not skip. */
  method Step(st: State, rec: Record, onlyPersist: bool, ghost before: seq<Record>) returns (next: State)
    requires After(before, onlyPersist, st) && LastCounts(before + [rec]) && !LastFails(before + [rec], onlyPersist)
    ensures After(before + [rec], onlyPersist, next)
  {
    AfterNext(st, rec, onlyPersist, before);
    var out, index := EmitRecord(rec, onlyPersist, st.index);
    var ranges, begin, call := st.ranges, st.begin, st.call;
    if rec.RecAPIBegin? {
      if begin != -1 {
        ranges := ranges + [(begin, st.index)];
      }
      begin, call := st.index, call + 1;
    } else if rec.RecAPIEnd? {
      ranges := ranges + [(begin, st.index)];
      begin := -1;
    }
    var allocs := AddAlloc(st.allocs, rec, st.begin, st.call);
    next := State(st.ops + out, ranges, allocs, index, begin, call, false);
  }

  method ExtractOperations(recs: seq<Record>, onlyPersist: bool) returns (r: Result)
    ensures r.Failed? <==> exists n :: 0 <= n < |recs| && BadRecord(recs, n)
    ensures r.Parsed? ==> Represents(recs, onlyPersist, r.ops)
    ensures r.Failed? <==> Fails(recs, onlyPersist)
    ensures r.Parsed? ==> r.ops == Emitted(recs, onlyPersist)
    ensures r.Parsed? ==> r.ranges == RangesOf(r.ops)
    ensures r.Parsed? ==> r.allocs == AllocsOf(recs, onlyPersist)
  {
    WhatParsingMeans(recs, onlyPersist);
    r := ReadRecords(recs, onlyPersist);
  }

  /** The loop over the records. */
  method ReadRecords(recs: seq<Record>, onlyPersist: bool) returns (r: Result)
    ensures r.Failed? <==> Fails(recs, onlyPersist)
    ensures r.Parsed? ==> r.ops == Emitted(recs, onlyPersist) && r.ranges == RangesOf(r.ops)
    ensures r.Parsed? ==> r.allocs == AllocsOf(recs, onlyPersist)
  {
    var st := State([], [], map[], 0, -1, -1, false);
    assert recs[..0] == [];
    for i := 0 to |recs|
      invariant After(recs[..i], onlyPersist, st) && !Fails(recs[..i], onlyPersist)
    {
      assert recs[..i + 1] == recs[..i] + [recs[i]];
      var stop: bool;
      st, stop := ReadRecord(st, recs[i], onlyPersist, recs[..i]);
      if stop {
        FailsStays(recs, i + 1, onlyPersist);
        return Failed;
      }
    }
    assert recs[..|recs|] == recs;
    r := Parsed(st.ops, st.ranges, st.allocs);
  }

  /** The body of the loop; `stop` is whether an assertion of the source fails. */
  method ReadRecord(st: State, rec: Record, onlyPersist: bool, ghost before: seq<Record>)
    returns (next: State, stop: bool)
    requires After(before, onlyPersist, st) && !Fails(before, onlyPersist)
    ensures stop <==> Fails(before + [rec], onlyPersist)
    ensures !stop ==> After(before + [rec], onlyPersist, next)
  {
    next, stop := st, false;
    NextLocks(before, rec);
    NextFails(before, rec, onlyPersist);
    if rec.OpensLock() {
      Skipped(before, rec, onlyPersist, st);
      next := st.(skip := true);
    } else if st.skip && !rec.ClosesLock() {
      Skipped(before, rec, onlyPersist, st);
    } else if rec.RecUnknown? || (rec.RecAPIEnd? && st.begin == -1) {
      stop := true;
    } else {
      next := Step(st, rec, onlyPersist, before);
    }
  }

  /** The definitions above, one record at a time. */
  lemma NextLocks(before: seq<Record>, rec: Record)
    ensures var recs := before + [rec];
            && InLockCall(recs) == (rec.OpensLock() || (!rec.ClosesLock() && InLockCall(before)))
            && LastCounts(recs) == (rec.ClosesLock() || (!rec.OpensLock() && !InLockCall(before)))
  {
    assert (before + [rec])[..|before|] == before;
  }

  lemma NextOps(before: seq<Record>, rec: Record, onlyPersist: bool)
    ensures var recs, ops := before + [rec], Emitted(before, onlyPersist);
            && Emitted(recs, onlyPersist) == (if LastCounts(recs) then ops + Emit(rec, onlyPersist, |ops|) else ops)
            && Calls(recs) == Calls(before) + (if LastCounts(recs) && rec.RecAPIBegin? then 1 else 0)
  {
    assert (before + [rec])[..|before|] == before;
  }

  lemma NextAllocs(before: seq<Record>, rec: Record, onlyPersist: bool)
    ensures var recs, ops, allocs := before + [rec], Emitted(before, onlyPersist), AllocsOf(before, onlyPersist);
            AllocsOf(recs, onlyPersist)
            == if LastCounts(recs) then AddAlloc(allocs, rec, OpenAt(ops), Calls(before) - 1) else allocs
  {
    LastAlloc(before + [rec], before, rec, onlyPersist);
  }

  lemma LastAlloc(recs: seq<Record>, front: seq<Record>, last: Record, onlyPersist: bool)
    requires recs != [] && front == recs[..|recs| - 1] && last == recs[|recs| - 1]
    ensures var ops, allocs := Emitted(front, onlyPersist), AllocsOf(front, onlyPersist);
            AllocsOf(recs, onlyPersist)
            == if LastCounts(recs) then AddAlloc(allocs, last, OpenAt(ops), Calls(front) - 1) else allocs
  {
  }

  lemma NextFails(before: seq<Record>, rec: Record, onlyPersist: bool)
    ensures var recs, ops := before + [rec], Emitted(before, onlyPersist);
            && Fails(recs, onlyPersist) == (LastFails(recs, onlyPersist) || Fails(before, onlyPersist))
            && LastFails(recs, onlyPersist)
               == (LastCounts(recs) && (rec.RecUnknown? || (rec.RecAPIEnd? && OpenAt(ops) == -1)))
  {
    assert (before + [rec])[..|before|] == before;
  }

  lemma Skipped(before: seq<Record>, rec: Record, onlyPersist: bool, st: State)
    requires After(before, onlyPersist, st) && !LastCounts(before + [rec])
    ensures After(before + [rec], onlyPersist, st.(skip := true))
  {
    NextLocks(before, rec);
    NextOps(before, rec, onlyPersist);
    NextAllocs(before, rec, onlyPersist);
  }

  lemma {:induction false} FailsStays(recs: seq<Record>, n: nat, onlyPersist: bool)
    requires n <= |recs| && Fails(recs[..n], onlyPersist)
    ensures Fails(recs, onlyPersist)
    decreases |recs|
  {
    if n == |recs| {
      assert recs[..n] == recs;
    } else {
      var front := recs[..|recs| - 1];
      assert front[..n] == recs[..n];
      FailsStays(front, n, onlyPersist);
    }
  }

  /** Only the borders of API calls change the calls. */
  lemma CallBorders(ops: seq<Op>, rec: Record, onlyPersist: bool)
    ensures var all := ops + Emit(rec, onlyPersist, |ops|);
            && OpenAt(all) == (if rec.RecAPIBegin? then |ops| else if rec.RecAPIEnd? then -1 else OpenAt(ops))
            && RangesOf(all) == (if rec.RecAPIEnd? || (rec.RecAPIBegin? && OpenAt(ops) != -1)
                                 then RangesOf(ops) + [(OpenAt(ops), |ops|)] else RangesOf(ops))
  {
    if rec.RecAPIBegin? {
      LastBorder(ops, APIBegin(|ops|, rec.tid));
    } else if rec.RecAPIEnd? {
      LastBorder(ops, APIEnd(|ops|, rec.tid));
    } else {
      EmitsNoBorder(rec, onlyPersist, |ops|);
      PlainTail(ops, Emit(rec, onlyPersist, |ops|));
    }
  }

  lemma EmitsNoBorder(rec: Record, onlyPersist: bool, id: int)
    requires !rec.RecAPIBegin? && !rec.RecAPIEnd?
    ensures var out := Emit(rec, onlyPersist, id);
            forall i :: 0 <= i < |out| ==> !out[i].APIBegin? && !out[i].APIEnd?
  {
  }

  lemma LastBorder(ops: seq<Op>, op: Op)
    requires op.APIBegin? || op.APIEnd?
    ensures OpenAt(ops + [op]) == (if op.APIBegin? then |ops| else -1)
    ensures RangesOf(ops + [op]) == (if op.APIEnd? || OpenAt(ops) != -1
                                     then RangesOf(ops) + [(OpenAt(ops), |ops|)] else RangesOf(ops))
  {
    assert (ops + [op])[..|ops|] == ops;
  }

  lemma {:induction false} PlainTail(ops: seq<Op>, out: seq<Op>)
    requires forall i :: 0 <= i < |out| ==> !out[i].APIBegin? && !out[i].APIEnd?
    ensures OpenAt(ops + out) == OpenAt(ops) && RangesOf(ops + out) == RangesOf(ops)
    decreases |out|
  {
    if out == [] {
      assert ops + out == ops;
    } else {
      assert (ops + out)[..|ops + out| - 1] == ops + out[..|out| - 1];
      PlainTail(ops, out[..|out| - 1]);
    }
  }

  // ---- What the parser guarantees ----

  lemma EmitIds(rec: Record, onlyPersist: bool, id: int)
    ensures forall i :: 0 <= i < |Emit(rec, onlyPersist, id)| ==> Emit(rec, onlyPersist, id)[i].Id() == id + i
  {
    if rec.RecStore? && onlyPersist {
      ChunkShape(rec.addr, rec.bytes, id);
    }
  }

  /** In both modes the id of an operation is its position. */
  lemma {:induction false} IdsArePositions(recs: seq<Record>, onlyPersist: bool)
    ensures forall i :: 0 <= i < |Emitted(recs, onlyPersist)| ==> Emitted(recs, onlyPersist)[i].Id() == i
  {
    if recs != [] {
      var front := recs[..|recs| - 1];
      IdsArePositions(front, onlyPersist);
      EmitIds(recs[|recs| - 1], onlyPersist, |Emitted(front, onlyPersist)|);
    }
  }

  /** Every call that ends has begun. */
  ghost predicate WellOpened(ops: seq<Op>) {
    forall n :: 0 <= n < |ops| && ops[n].APIEnd? ==> OpenAt(ops[..n]) != -1
  }

  lemma {:induction false} ParsedWellOpened(recs: seq<Record>, onlyPersist: bool)
    requires !Fails(recs, onlyPersist)
    ensures WellOpened(Emitted(recs, onlyPersist))
  {
    if recs != [] {
      var front, rec := recs[..|recs| - 1], recs[|recs| - 1];
      ParsedWellOpened(front, onlyPersist);
      assert recs == front + [rec];
      NextOps(front, rec, onlyPersist);
      if LastCounts(recs) {
        WellOpenedNext(Emitted(front, onlyPersist), rec, onlyPersist);
      }
    }
  }

  lemma WellOpenedNext(ops: seq<Op>, rec: Record, onlyPersist: bool)
    requires WellOpened(ops) && (rec.RecAPIEnd? ==> OpenAt(ops) != -1)
    ensures WellOpened(ops + Emit(rec, onlyPersist, |ops|))
  {
    var all := ops + Emit(rec, onlyPersist, |ops|);
    forall n | 0 <= n < |all| && all[n].APIEnd? ensures OpenAt(all[..n]) != -1 {
      if n < |ops| {
        assert all[..n] == ops[..n];
      } else {
        assert rec.RecAPIEnd? && all[..n] == ops;
      }
    }
  }

  /** `r` runs from an APIBegin to the next border of a call. */
  ghost predicate IsCall(ops: seq<Op>, r: (int, int)) {
    && 0 <= r.0 < r.1 < |ops| && ops[r.0].APIBegin? && IsBorder(ops[r.1])
    && forall i :: r.0 < i < r.1 ==> !IsBorder(ops[i])
  }

  lemma {:induction false} OpenIsLastBorder(ops: seq<Op>)
    ensures forall i :: OpenAt(ops) < i < |ops| && OpenAt(ops) != -1 ==> !IsBorder(ops[i])
  {
    if ops != [] {
      OpenIsLastBorder(ops[..|ops| - 1]);
    }
  }

  lemma WellOpenedFront(ops: seq<Op>)
    requires ops != [] && WellOpened(ops)
    ensures WellOpened(ops[..|ops| - 1])
  {
    var front := ops[..|ops| - 1];
    assert forall k :: 0 <= k < |front| ==> front[..k] == ops[..k];
  }

  /** API ranges are calls. */
  lemma {:induction false} RangesAreCalls(ops: seq<Op>, k: nat)
    requires WellOpened(ops) && k < |RangesOf(ops)|
    ensures IsCall(ops, RangesOf(ops)[k])
  {
    var front := ops[..|ops| - 1];
    WellOpenedFront(ops);
    if k < |RangesOf(front)| {
      RangesAreCalls(front, k);
    } else {
      OpenIsLastBorder(front);
    }
  }

  /** API ranges are in order and do not overlap, and the open call begins after them. */
  lemma {:induction false} RangesInOrder(ops: seq<Op>, j: nat)
    requires WellOpened(ops) && j < |RangesOf(ops)|
    ensures OpenAt(ops) != -1 ==> RangesOf(ops)[j].1 <= OpenAt(ops)
    ensures forall k :: j < k < |RangesOf(ops)| ==> RangesOf(ops)[j].1 <= RangesOf(ops)[k].0
  {
    var front := ops[..|ops| - 1];
    WellOpenedFront(ops);
    RangesAreCalls(ops, j);
    if j < |RangesOf(front)| {
      RangesInOrder(front, j);
    }
  }

  /** Later records only add ranges, and an open call becomes the next range or stays open. */
  lemma {:induction false} RangesGrow(recs: seq<Record>, n: nat, onlyPersist: bool)
    requires n <= |recs| && !Fails(recs, onlyPersist)
    ensures var early, late := Emitted(recs[..n], onlyPersist), Emitted(recs, onlyPersist);
            && RangesOf(early) <= RangesOf(late)
            && (OpenAt(early) != -1 ==>
                  var k := |RangesOf(early)|;
                  if |RangesOf(late)| == k then OpenAt(late) == OpenAt(early)
                  else RangesOf(late)[k].0 == OpenAt(early))
    decreases |recs|
  {
    if n == |recs| {
      assert recs[..n] == recs;
    } else {
      var front, rec := recs[..|recs| - 1], recs[|recs| - 1];
      assert front[..n] == recs[..n] && recs == front + [rec];
      RangesGrow(front, n, onlyPersist);
      NextOps(front, rec, onlyPersist);
      CallBorders(Emitted(front, onlyPersist), rec, onlyPersist);
    }
  }

  /** While a call is open, its number is the index its range will get. */
  lemma {:induction false} CallNumber(recs: seq<Record>, onlyPersist: bool)
    requires !Fails(recs, onlyPersist)
    ensures var ops := Emitted(recs, onlyPersist);
            Calls(recs) == |RangesOf(ops)| + (if OpenAt(ops) != -1 then 1 else 0)
  {
    if recs != [] {
      var front, rec := recs[..|recs| - 1], recs[|recs| - 1];
      assert recs == front + [rec];
      CallNumber(front, onlyPersist);
      NextOps(front, rec, onlyPersist);
      CallBorders(Emitted(front, onlyPersist), rec, onlyPersist);
    }
  }

  /** The call with number `key` begins at `begin`: as a range of the trace, or as the call still open. */
  predicate CallBeginsAt(ops: seq<Op>, key: int, begin: int) {
    0 <= key <= |RangesOf(ops)| && begin == if key < |RangesOf(ops)| then RangesOf(ops)[key].0 else OpenAt(ops)
  }

  /** The call open at record `n` has the number of its own range. */
  lemma OpenCallNumber(recs: seq<Record>, n: nat, onlyPersist: bool)
    requires n < |recs| && !Fails(recs, onlyPersist) && OpenAt(Emitted(recs[..n], onlyPersist)) != -1
    ensures CallBeginsAt(Emitted(recs, onlyPersist), Calls(recs[..n]) - 1, OpenAt(Emitted(recs[..n], onlyPersist)))
  {
    if Fails(recs[..n], onlyPersist) {
      FailsStays(recs, n, onlyPersist);
    }
    CallNumber(recs[..n], onlyPersist);
    RangesGrow(recs, n, onlyPersist);
  }

  /** Record `n` is an allocation of `block`, read outside lock calls while call number `key` was open. */
  ghost predicate AllocRead(recs: seq<Record>, onlyPersist: bool, n: nat, key: int, block: (nat, nat)) {
    && n < |recs| && recs[n].RecAlloc? && (recs[n].addr, recs[n].size) == block && LastCounts(recs[..n + 1])
    && OpenAt(Emitted(recs[..n], onlyPersist)) != -1 && key == Calls(recs[..n]) - 1
  }

  lemma AllocReadLater(recs: seq<Record>, onlyPersist: bool, n: nat, key: int, block: (nat, nat))
    requires recs != [] && AllocRead(recs[..|recs| - 1], onlyPersist, n, key, block)
    ensures AllocRead(recs, onlyPersist, n, key, block)
  {
    var front := recs[..|recs| - 1];
    assert front[..n] == recs[..n] && front[..n + 1] == recs[..n + 1];
  }

  /** Where a filed allocation comes from. */
  lemma {:induction false} AllocOrigin(recs: seq<Record>, onlyPersist: bool, key: int, j: nat) returns (n: nat)
    requires key in AllocsOf(recs, onlyPersist) && j < |AllocsOf(recs, onlyPersist)[key]|
    ensures AllocRead(recs, onlyPersist, n, key, AllocsOf(recs, onlyPersist)[key][j])
  {
    var front, rec := recs[..|recs| - 1], recs[|recs| - 1];
    var m := AllocsOf(front, onlyPersist);
    assert recs == front + [rec];
    NextAllocs(front, rec, onlyPersist);
    if key in m && j < |m[key]| {
      n := AllocOrigin(front, onlyPersist, key, j);
      AllocReadLater(recs, onlyPersist, n, key, m[key][j]);
    } else {
      n := |front|;
      assert recs[..n + 1] == recs;
    }
  }

  /** Every allocation filed under a key was read while the call with that number was open, and that call is the
      range with that index, or the one still open at the end. */
  lemma AllocKeyIsItsCall(recs: seq<Record>, onlyPersist: bool, key: int, j: nat) returns (n: nat)
    requires !Fails(recs, onlyPersist)
    requires key in AllocsOf(recs, onlyPersist) && j < |AllocsOf(recs, onlyPersist)[key]|
    ensures AllocRead(recs, onlyPersist, n, key, AllocsOf(recs, onlyPersist)[key][j])
    ensures CallBeginsAt(Emitted(recs, onlyPersist), key, OpenAt(Emitted(recs[..n], onlyPersist)))
  {
    n := AllocOrigin(recs, onlyPersist, key, j);
    OpenCallNumber(recs, n, onlyPersist);
  }

  /** And every allocation read in a call is filed. */
  lemma {:induction false} AllocIsFiled(recs: seq<Record>, onlyPersist: bool, n: nat, key: int, block: (nat, nat))
    requires AllocRead(recs, onlyPersist, n, key, block)
    ensures key in AllocsOf(recs, onlyPersist) && block in AllocsOf(recs, onlyPersist)[key]
    decreases |recs|
  {
    var front, rec := recs[..|recs| - 1], recs[|recs| - 1];
    assert recs == front + [rec];
    NextAllocs(front, rec, onlyPersist);
    if n < |front| {
      assert front[..n] == recs[..n] && front[..n + 1] == recs[..n + 1];
      AllocIsFiled(front, onlyPersist, n, key, block);
    } else {
      assert recs[..n + 1] == recs;
    }
  }

  /** No other keys are filed. */
  lemma {:induction false} AllocKeysAreCalls(recs: seq<Record>, onlyPersist: bool, key: int)
    requires !Fails(recs, onlyPersist) && key in AllocsOf(recs, onlyPersist)
    ensures 0 <= key < Calls(recs)
  {
    if recs != [] {
      var front, rec := recs[..|recs| - 1], recs[|recs| - 1];
      assert recs == front + [rec];
      NextOps(front, rec, onlyPersist);
      NextAllocs(front, rec, onlyPersist);
      CallNumber(front, onlyPersist);
      if key in AllocsOf(front, onlyPersist) {
        AllocKeysAreCalls(front, onlyPersist, key);
      }
    }
  }

  /** A trace of nonempty stores inside the image, once split into chunks, trips no assertion of the cache. */
  lemma {:induction false} ParsedReplayable(recs: seq<Record>, base: nat, size: nat)
    requires forall i :: 0 <= i < |recs| && recs[i].RecStore? ==>
               recs[i].bytes != [] && base <= recs[i].addr && recs[i].addr + |recs[i].bytes| <= base + size
    ensures Replayable(Emitted(recs, true), base, size)
  {
    if recs != [] {
      var front, rec := recs[..|recs| - 1], recs[|recs| - 1];
      ParsedReplayable(front, base, size);
      if rec.RecStore? {
        ChunkShape(rec.addr, rec.bytes, |Emitted(front, true)|);
        ChunkBounds(rec.addr, rec.bytes, |Emitted(front, true)|);
      }
    }
  }

  function WritesOf(ops: seq<Op>): seq<Write> {
    if ops == [] then []
    else WritesOf(ops[..|ops| - 1]) + (if ops[|ops| - 1].Store? then [ops[|ops| - 1].w] else [])
  }

  lemma {:induction false} WritesOfConcat(xs: seq<Op>, ys: seq<Op>)
    ensures WritesOf(xs + ys) == WritesOf(xs) + WritesOf(ys)
    decreases |ys|
  {
    if ys == [] {
      assert xs + ys == xs;
    } else {
      assert (xs + ys)[..|xs + ys| - 1] == xs + ys[..|ys| - 1];
      WritesOfConcat(xs, ys[..|ys| - 1]);
    }
  }

  lemma {:induction false} WritesOfStores(ws: seq<Write>, tid: int)
    ensures WritesOf(StoresOp(ws, tid)) == ws
  {
    if ws != [] {
      WritesOfStores(ws[..|ws| - 1], tid);
      assert StoresOp(ws, tid)[..|ws| - 1] == StoresOp(ws[..|ws| - 1], tid);
    }
  }

  /** Both modes describe the same memory. */
  lemma {:induction false} ModesAgreeOnMemory(recs: seq<Record>, img: Image)
    ensures PutAll(img, WritesOf(Emitted(recs, true))) == PutAll(img, WritesOf(Emitted(recs, false)))
  {
    if recs != [] {
      var front, rec := recs[..|recs| - 1], recs[|recs| - 1];
      ModesAgreeOnMemory(front, img);
      if LastCounts(recs) {
        var img' := PutAll(img, WritesOf(Emitted(front, true)));
        EmitSameMemory(rec, img', |Emitted(front, true)|, |Emitted(front, false)|);
        AddEmitted(front, rec, img, true);
        AddEmitted(front, rec, img, false);
      }
    }
  }

  lemma AddEmitted(front: seq<Record>, rec: Record, img: Image, onlyPersist: bool)
    ensures var ops := Emitted(front, onlyPersist);
            var out := Emit(rec, onlyPersist, |ops|);
            PutAll(img, WritesOf(ops + out)) == PutAll(PutAll(img, WritesOf(ops)), WritesOf(out))
  {
    var ops := Emitted(front, onlyPersist);
    WritesOfConcat(ops, Emit(rec, onlyPersist, |ops|));
    PutAllConcat(img, WritesOf(ops), WritesOf(Emit(rec, onlyPersist, |ops|)));
  }

  lemma EmitSameMemory(rec: Record, img: Image, id: int, id': int)
    ensures PutAll(img, WritesOf(Emit(rec, true, id))) == PutAll(img, WritesOf(Emit(rec, false, id')))
  {
    if rec.RecStore? {
      WritesOfStores(Split(rec.addr, rec.bytes, id), rec.tid);
      SplitPreservesMemory(img, rec.addr, rec.bytes, id);
      WritesOfStores([Write(rec.addr, rec.bytes, id')], rec.tid);
      assert Emit(rec, false, id') == StoresOp([Write(rec.addr, rec.bytes, id')], rec.tid);
      IdDoesNotMatter(img, rec.addr, rec.bytes, id, id');
    } else {
      NoWrites(Emit(rec, true, id));
      NoWrites(Emit(rec, false, id'));
    }
  }

  lemma IdDoesNotMatter(img: Image, addr: nat, bytes: seq<Byte>, id: int, id': int)
    ensures PutAll(img, [Write(addr, bytes, id)]) == PutAll(img, [Write(addr, bytes, id')])
  {
    var w, w' := Write(addr, bytes, id), Write(addr, bytes, id');
    forall a | a in img ensures ByteAfter(img[a], [w], a) == ByteAfter(img[a], [w'], a) {
      assert [Write(addr, bytes, id)][..0] == [Write(addr, bytes, id')][..0];
    }
  }

  lemma {:induction false} NoWrites(ops: seq<Op>)
    requires forall i :: 0 <= i < |ops| ==> !ops[i].Store?
    ensures WritesOf(ops) == []
  {
    if ops != [] {
      NoWrites(ops[..|ops| - 1]);
    }
  }

  // ---- Records and operations, without the parser's own functions ----

  /** No lock or unlock call ends between `j` and `n`. */
  ghost predicate NoCloseBetween(recs: seq<Record>, j: nat, n: nat)
    requires n <= |recs|
  {
    forall k :: j < k < n ==> !recs[k].ClosesLock()
  }

  /** A lock or unlock call that began before `n` has not ended. */
  ghost predicate InsideLockCall(recs: seq<Record>, n: nat)
    requires n <= |recs|
  {
    exists j :: 0 <= j < n && recs[j].OpensLock() && NoCloseBetween(recs, j, n)
  }

  /** The parser looks at record `n`: it is the end of a lock call, or outside of them. */
  ghost predicate Counted(recs: seq<Record>, n: nat) {
    n < |recs| && (recs[n].ClosesLock() || (!recs[n].OpensLock() && !InsideLockCall(recs, n)))
  }

  lemma {:induction false} InLockCallIff(recs: seq<Record>, n: nat)
    requires n <= |recs|
    ensures InLockCall(recs[..n]) <==> InsideLockCall(recs, n)
  {
    if n > 0 {
      InLockCallIff(recs, n - 1);
      assert recs[..n][..n - 1] == recs[..n - 1];
      if recs[n - 1].OpensLock() {
        assert NoCloseBetween(recs, n - 1, n);
      } else if !recs[n - 1].ClosesLock() {
        if j :| 0 <= j < n - 1 && recs[j].OpensLock() && NoCloseBetween(recs, j, n - 1) {
          assert NoCloseBetween(recs, j, n);
        }
        if j :| 0 <= j < n && recs[j].OpensLock() && NoCloseBetween(recs, j, n) {
          assert NoCloseBetween(recs, j, n - 1);
        }
      }
    }
  }

  lemma CountsIff(recs: seq<Record>, n: nat)
    requires n < |recs|
    ensures LastCounts(recs[..n + 1]) <==> Counted(recs, n)
  {
    assert recs[..n + 1][..n] == recs[..n];
    InLockCallIff(recs, n);
  }

  /** An operation has the kind, thread, address and size of a record; a store, some of its bytes. */
  predicate Like(op: Op, rec: Record) {
    match op
    case Store(w, tid) => rec.RecStore? && rec.tid == tid && Within(w, rec.addr, rec.bytes)
    case Load(a, n, _, tid) => rec == RecLoad(tid, a, n)
    case Flush(a, _, tid) => rec == RecFlush(tid, a)
    case Fence(_, tid) => rec == RecFence(tid)
    case Lock(a, _, tid) => rec == RecLock(tid, a) || rec == RecLockEnd(tid, a)
    case UnLock(a, _, tid) => rec == RecUnLock(tid, a) || rec == RecUnLockEnd(tid, a)
    case APIBegin(_, tid) => rec == RecAPIBegin(tid)
    case APIEnd(_, tid) => rec == RecAPIEnd(tid)
  }

  /** The record kinds that a mode keeps. */
  predicate KeptKind(rec: Record, onlyPersist: bool) {
    || rec.RecStore? || rec.RecFlush? || rec.RecFence? || rec.RecAPIBegin? || rec.RecAPIEnd?
    || (!onlyPersist && (rec.RecLoad? || rec.RecLock? || rec.RecLockEnd? || rec.RecUnLock? || rec.RecUnLockEnd?))
  }

  /** What a counted record becomes: one operation like it if its kind is kept, several for a split store. */
  ghost predicate Gives(rec: Record, onlyPersist: bool, out: seq<Op>) {
    && AllLike(out, rec)
    && (if !KeptKind(rec, onlyPersist) then out == []
        else if rec.RecStore? && onlyPersist then SplitsInto(rec, out)
        else |out| == 1 && (rec.RecStore? ==> out[0].w.addr == rec.addr && out[0].w.bytes == rec.bytes))
  }

  ghost predicate AllLike(out: seq<Op>, rec: Record) { forall i :: 0 <= i < |out| ==> Like(out[i], rec) }

  ghost predicate SplitsInto(rec: Record, out: seq<Op>)
    requires rec.RecStore?
  {
    exists ws :: Tiles(ws, rec.addr, rec.bytes) && out == StoresOp(ws, rec.tid)
  }

  lemma EmitGives(rec: Record, onlyPersist: bool, id: int)
    ensures Gives(rec, onlyPersist, Emit(rec, onlyPersist, id))
  {
    if rec.RecStore? {
      if onlyPersist {
        SplitTiles(rec.addr, rec.bytes, id);
      } else {
        assert rec.bytes[0..][..|rec.bytes|] == rec.bytes;
      }
    }
  }

  /** Where the operations of each record begin. */
  ghost predicate Corresponds(recs: seq<Record>, onlyPersist: bool, ops: seq<Op>, at: seq<nat>) {
    && |at| == |recs| + 1 && at[0] == 0 && at[|recs|] == |ops|
    && forall n :: 0 <= n < |recs| ==> GivesAt(recs, onlyPersist, ops, at, n)
  }

  ghost predicate GivesAt(recs: seq<Record>, onlyPersist: bool, ops: seq<Op>, at: seq<nat>, n: nat)
    requires n < |recs| && |at| == |recs| + 1
  {
    && at[n] <= at[n + 1] <= |ops|
    && (if Counted(recs, n) then Gives(recs[n], onlyPersist, ops[at[n]..at[n + 1]]) else at[n] == at[n + 1])
  }

  ghost function Starting(recs: seq<Record>, onlyPersist: bool): seq<nat> {
    seq(|recs| + 1, n requires 0 <= n <= |recs| => |Emitted(recs[..n], onlyPersist)|)
  }

  lemma {:induction false} EmittedFront(recs: seq<Record>, onlyPersist: bool, n: nat)
    requires n <= |recs|
    ensures Emitted(recs[..n], onlyPersist) <= Emitted(recs, onlyPersist)
    decreases |recs|
  {
    if n == |recs| {
      assert recs[..n] == recs;
    } else {
      assert recs[..|recs| - 1][..n] == recs[..n];
      EmittedFront(recs[..|recs| - 1], onlyPersist, n);
    }
  }

  lemma EmittedNext(recs: seq<Record>, onlyPersist: bool, n: nat)
    requires n < |recs|
    ensures var front := Emitted(recs[..n], onlyPersist);
            Emitted(recs[..n + 1], onlyPersist)
            == front + (if Counted(recs, n) then Emit(recs[n], onlyPersist, |front|) else [])
  {
    assert recs[..n + 1] == recs[..n] + [recs[n]];
    CountsIff(recs, n);
    NextOps(recs[..n], recs[n], onlyPersist);
  }

  lemma SliceOut(ops: seq<Op>, front: seq<Op>, out: seq<Op>)
    requires front + out <= ops
    ensures ops[|front|..|front| + |out|] == out
  {
    assert ops[..|front| + |out|] == front + out;
  }

  lemma EmittedGives(recs: seq<Record>, onlyPersist: bool, n: nat)
    requires n < |recs|
    ensures GivesAt(recs, onlyPersist, Emitted(recs, onlyPersist), Starting(recs, onlyPersist), n)
  {
    var front := Emitted(recs[..n], onlyPersist);
    var out := if Counted(recs, n) then Emit(recs[n], onlyPersist, |front|) else [];
    EmittedNext(recs, onlyPersist, n);
    EmittedFront(recs, onlyPersist, n + 1);
    EmitGives(recs[n], onlyPersist, |front|);
    SliceGives(recs, onlyPersist, Emitted(recs, onlyPersist), Starting(recs, onlyPersist), n, front, out);
  }

  lemma SliceGives(recs: seq<Record>, onlyPersist: bool, ops: seq<Op>, at: seq<nat>, n: nat, front: seq<Op>,
                   out: seq<Op>)
    requires n < |recs| && |at| == |recs| + 1 && at[n] == |front| && at[n + 1] == |front| + |out| && front + out <= ops
    requires Counted(recs, n) ==> Gives(recs[n], onlyPersist, out)
    requires !Counted(recs, n) ==> out == []
    ensures GivesAt(recs, onlyPersist, ops, at, n)
  {
    SliceOut(ops, front, out);
    var got := ops[at[n]..at[n + 1]];
    assert got == out;
  }

  /** Every operation comes from a counted record like it, every counted record of a kept kind has its operations, and
      they are in the order of the records. */
  lemma EmittedCorresponds(recs: seq<Record>, onlyPersist: bool)
    ensures Corresponds(recs, onlyPersist, Emitted(recs, onlyPersist), Starting(recs, onlyPersist))
  {
    assert recs[..0] == [] && recs[..|recs|] == recs;
    forall n | 0 <= n < |recs|
      ensures GivesAt(recs, onlyPersist, Emitted(recs, onlyPersist), Starting(recs, onlyPersist), n)
    {
      EmittedGives(recs, onlyPersist, n);
    }
  }

  /** The counted stores of the first `n` records, as they were recorded. */
  ghost function RecordedWrites(recs: seq<Record>, n: nat): seq<Write>
    requires n <= |recs|
  {
    if n == 0 then []
    else
      RecordedWrites(recs, n - 1)
      + (if Counted(recs, n - 1) && recs[n - 1].RecStore? then [Write(recs[n - 1].addr, recs[n - 1].bytes, 0)] else [])
  }

  /** Sequential memory over the operations is sequential memory over the records, in both modes. */
  lemma {:induction false} ParsedMemory(recs: seq<Record>, onlyPersist: bool, img: Image, n: nat)
    requires n <= |recs|
    ensures PutAll(img, WritesOf(Emitted(recs[..n], onlyPersist))) == PutAll(img, RecordedWrites(recs, n))
  {
    if n > 0 {
      var front, rec, ws := recs[..n - 1], recs[n - 1], RecordedWrites(recs, n - 1);
      ParsedMemory(recs, onlyPersist, img, n - 1);
      EmittedNext(recs, onlyPersist, n - 1);
      if Counted(recs, n - 1) {
        AddEmitted(front, rec, img, onlyPersist);
        EmitMemory(rec, onlyPersist, PutAll(img, ws), |Emitted(front, onlyPersist)|);
        if rec.RecStore? {
          PutAllConcat(img, ws, [Write(rec.addr, rec.bytes, 0)]);
        }
      }
      assert ws + [] == ws && Emitted(front, onlyPersist) + [] == Emitted(front, onlyPersist);
    }
  }

  lemma EmitMemory(rec: Record, onlyPersist: bool, img: Image, id: int)
    ensures PutAll(img, WritesOf(Emit(rec, onlyPersist, id)))
         == if rec.RecStore? then PutAll(img, [Write(rec.addr, rec.bytes, 0)]) else img
  {
    EmitSameMemory(rec, img, id, id);
    if rec.RecStore? {
      var ws := [Write(rec.addr, rec.bytes, id)];
      WritesOfStores(ws, rec.tid);
      assert Emit(rec, false, id) == StoresOp(ws, rec.tid);
      IdDoesNotMatter(img, rec.addr, rec.bytes, id, 0);
    } else {
      NoWrites(Emit(rec, onlyPersist, id));
      assert PutAll(img, []) == img;
    }
  }

  // ---- When the parser stops ----

  ghost predicate NoEndBetween(recs: seq<Record>, j: nat, n: nat) {
    forall k :: j < k < n && Counted(recs, k) ==> !recs[k].RecAPIEnd?
  }

  /** An API call began before `n` and has not ended. */
  ghost predicate CallOpen(recs: seq<Record>, n: nat) {
    exists j :: 0 <= j < n && Counted(recs, j) && recs[j].RecAPIBegin? && NoEndBetween(recs, j, n)
  }

  /** A counted record that is unknown, or ends a call when none is open. */
  ghost predicate BadRecord(recs: seq<Record>, n: nat) {
    Counted(recs, n) && (recs[n].RecUnknown? || (recs[n].RecAPIEnd? && !CallOpen(recs, n)))
  }

  lemma {:induction false} OpenIff(recs: seq<Record>, onlyPersist: bool, n: nat)
    requires n <= |recs|
    ensures OpenAt(Emitted(recs[..n], onlyPersist)) != -1 <==> CallOpen(recs, n)
  {
    if n > 0 {
      var front, rec := recs[..n - 1], recs[n - 1];
      assert recs[..n] == front + [rec];
      OpenIff(recs, onlyPersist, n - 1);
      CountsIff(recs, n - 1);
      NextOps(front, rec, onlyPersist);
      CallBorders(Emitted(front, onlyPersist), rec, onlyPersist);
      OpenNext(recs, n);
    }
  }

  lemma OpenNext(recs: seq<Record>, n: nat)
    requires 0 < n <= |recs|
    ensures CallOpen(recs, n) <==>
            if Counted(recs, n - 1) && recs[n - 1].RecAPIBegin? then true
            else if Counted(recs, n - 1) && recs[n - 1].RecAPIEnd? then false
            else CallOpen(recs, n - 1)
  {
    if Counted(recs, n - 1) && recs[n - 1].RecAPIBegin? {
      assert NoEndBetween(recs, n - 1, n);
    } else if !(Counted(recs, n - 1) && recs[n - 1].RecAPIEnd?) {
      if j :| 0 <= j < n - 1 && Counted(recs, j) && recs[j].RecAPIBegin? && NoEndBetween(recs, j, n - 1) {
        assert NoEndBetween(recs, j, n);
      }
      if j :| 0 <= j < n && Counted(recs, j) && recs[j].RecAPIBegin? && NoEndBetween(recs, j, n) {
        assert NoEndBetween(recs, j, n - 1);
      }
    }
  }

  /** The parser stops exactly at a bad record. */
  lemma {:induction false} FailsIff(recs: seq<Record>, onlyPersist: bool, n: nat)
    requires n <= |recs|
    ensures Fails(recs[..n], onlyPersist) <==> exists k :: 0 <= k < n && BadRecord(recs, k)
  {
    if n > 0 {
      FailsIff(recs, onlyPersist, n - 1);
      assert recs[..n][..n - 1] == recs[..n - 1];
      CountsIff(recs, n - 1);
      OpenIff(recs, onlyPersist, n - 1);
      assert LastFails(recs[..n], onlyPersist) <==> BadRecord(recs, n - 1);
    }
  }

  /** What the operations have to do with the records: they correspond one record at a time, they are numbered by their
      positions, and they do the same to memory. */
  ghost predicate Represents(recs: seq<Record>, onlyPersist: bool, ops: seq<Op>) {
    && (exists at :: Corresponds(recs, onlyPersist, ops, at))
    && (forall i :: 0 <= i < |ops| ==> ops[i].Id() == i)
    && (forall img :: PutAll(img, WritesOf(ops)) == PutAll(img, RecordedWrites(recs, |recs|)))
  }

  lemma WhatParsingMeans(recs: seq<Record>, onlyPersist: bool)
    ensures Fails(recs, onlyPersist) <==> exists n :: 0 <= n < |recs| && BadRecord(recs, n)
    ensures Represents(recs, onlyPersist, Emitted(recs, onlyPersist))
  {
    assert recs[..|recs|] == recs;
    FailsIff(recs, onlyPersist, |recs|);
    EmittedCorresponds(recs, onlyPersist);
    IdsArePositions(recs, onlyPersist);
    forall img ensures PutAll(img, WritesOf(Emitted(recs, onlyPersist))) == PutAll(img, RecordedWrites(recs, |recs|)) {
      ParsedMemory(recs, onlyPersist, img, |recs|);
    }
  }
}
