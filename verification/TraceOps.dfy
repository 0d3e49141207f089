/** The operations of a parsed trace. */
module TraceOps {
  import opened Memory
  import Persistence

  datatype Op =
    | Store(w: Write, tid: int)
    | Load(addr: nat, size: nat, id: int, tid: int)
    | Flush(addr: nat, id: int, tid: int)
    | Fence(id: int, tid: int)
    | Lock(addr: nat, id: int, tid: int)
    | UnLock(addr: nat, id: int, tid: int)
    | APIBegin(id: int, tid: int)
    | APIEnd(id: int, tid: int)
  {
    function Id(): int { if Store? then w.id else id }
  }

  /** What an operation does to the cache of the crash-image generator, which writes everything back at the
      borders of an API call. */
  function LsEvent(op: Op): Persistence.Event {
    match op
    case Store(w, _) => Persistence.Store(w)
    case Flush(a, _, _) => Persistence.Flush(a)
    case Fence(_, _) => Persistence.Fence
    case APIBegin(_, _) => Persistence.WriteBack
    case APIEnd(_, _) => Persistence.WriteBack
    case _ => Persistence.Other
  }

  /** What an operation does to the replay cache, which ignores the borders of an API call. */
  function ReplayEvent(op: Op): Persistence.Event {
    if op.APIBegin? || op.APIEnd? then Persistence.Other else LsEvent(op)
  }

  function LsEvents(ops: seq<Op>): seq<Persistence.Event> {
    seq(|ops|, i requires 0 <= i < |ops| => LsEvent(ops[i]))
  }

  function ReplayEvents(ops: seq<Op>): seq<Persistence.Event> {
    seq(|ops|, i requires 0 <= i < |ops| => ReplayEvent(ops[i]))
  }

  /** Every store fits in a cacheline and lies inside the mapped image. */
  ghost predicate Replayable(ops: seq<Op>, base: nat, size: nat) {
    forall i :: 0 <= i < |ops| && ops[i].Store? ==>
      ops[i].w.Fits() && base <= ops[i].w.addr && ops[i].w.addr + |ops[i].w.bytes| <= base + size
  }

  // ---- Persistence, read off the operations ----

  predicate FlushesStore(op: Op, w: Write) { op.Flush? && InFlush(op.addr, w.addr, |w.bytes|) }

  /** A flush of the store at `i` and a fence after it, both before `n`. */
  ghost predicate PersistedBefore(ops: seq<Op>, i: nat, n: nat)
    requires i < |ops| && ops[i].Store? && n <= |ops|
  {
    exists f, e :: i < f < e < n && FlushesStore(ops[f], ops[i].w) && ops[e].Fence?
  }

  predicate IsBorder(op: Op) { op.APIBegin? || op.APIEnd? }

  /** The store at `i` is durable before `n` for the crash-image generator: flushed and fenced, or older than a border
      of an API call. */
  ghost predicate DurableBefore(ops: seq<Op>, i: nat, n: nat)
    requires i < |ops| && ops[i].Store? && n <= |ops|
  {
    PersistedBefore(ops, i, n) || exists e :: i < e < n && IsBorder(ops[e])
  }

  /** The stores at the positions in `keep` from `lo` up to `hi`, in program order. */
  ghost function WritesAt(ops: seq<Op>, keep: set<nat>, lo: nat, hi: nat): seq<Write>
    requires hi <= |ops|
    decreases hi
  {
    if hi <= lo then []
    else
      var n := hi - 1;
      WritesAt(ops, keep, lo, n) + (if n in keep && ops[n].Store? then [ops[n].w] else [])
  }

  /** An event is a store of the cache exactly when the operation is, with the same bytes. */
  ghost predicate StoresAlike(ev: Persistence.Event, op: Op) {
    (ev.Store? <==> op.Store?) && (op.Store? ==> ev.w == op.w)
  }

  /** Event `k` and the operation at `k + d` are the same store, if any, and both are chosen or neither. */
  ghost predicate AlikeAt(ops: seq<Op>, evs: seq<Persistence.Event>, keep: set<nat>, kept: set<nat>, d: int, k: nat) {
    && k < |evs| && 0 <= k + d < |ops|
    && StoresAlike(evs[k], ops[k + d]) && (k in kept <==> k + d in keep)
  }

  /** The same stores in a list of events that has the operations from `from` on at `lo` on. */
  lemma {:induction false} SameStores(ops: seq<Op>, evs: seq<Persistence.Event>, keep: set<nat>, kept: set<nat>,
                                      lo: nat, hi: nat, from: nat, to: nat, d: int)
    requires lo <= hi <= |evs| && from <= to <= |ops| && from == lo + d && to == hi + d
    requires forall k :: lo <= k < hi ==> AlikeAt(ops, evs, keep, kept, d, k)
    ensures Persistence.StoresAt(evs, kept, lo, hi) == WritesAt(ops, keep, from, to)
    decreases hi
  {
    if lo < hi {
      SameStores(ops, evs, keep, kept, lo, hi - 1, from, to - 1, d);
      assert AlikeAt(ops, evs, keep, kept, d, hi - 1);
      SameLast(ops, evs, keep, kept, lo, hi, from, to);
    }
  }

  lemma SameLast(ops: seq<Op>, evs: seq<Persistence.Event>, keep: set<nat>, kept: set<nat>,
                 lo: nat, hi: nat, from: nat, to: nat)
    requires lo < hi <= |evs| && from < to <= |ops|
    requires Persistence.StoresAt(evs, kept, lo, hi - 1) == WritesAt(ops, keep, from, to - 1)
    requires StoresAlike(evs[hi - 1], ops[to - 1]) && (hi - 1 in kept <==> to - 1 in keep)
    ensures Persistence.StoresAt(evs, kept, lo, hi) == WritesAt(ops, keep, from, to)
  {
  }

  lemma SamePrefixStores(ops: seq<Op>, evs: seq<Persistence.Event>, keep: set<nat>, kept: set<nat>, p: nat)
    requires p == |evs| <= |ops|
    requires forall k :: 0 <= k < p ==> StoresAlike(evs[k], ops[k]) && (k in kept <==> k in keep)
    ensures Persistence.StoresAt(evs, kept, 0, p) == WritesAt(ops, keep, 0, p)
  {
    forall k | 0 <= k < p ensures AlikeAt(ops, evs, keep, kept, 0, k) {
      assert StoresAlike(evs[k], ops[k]);
    }
    SameStores(ops, evs, keep, kept, 0, p, 0, p, 0);
  }

  /** What the crash-image generator counts as durable. */
  lemma LsDurable(ops: seq<Op>, p: nat, i: nat)
    requires i < p <= |ops| && ops[i].Store?
    ensures var evs := LsEvents(ops[..p]);
            evs[i] == Persistence.Store(ops[i].w) && (Persistence.Durable(evs, i) <==> DurableBefore(ops, i, p))
  {
    if Persistence.Durable(LsEvents(ops[..p]), i) {
      EventsDurable(ops, p, i);
    }
    if DurableBefore(ops, i, p) {
      OpsDurable(ops, p, i);
    }
  }

  lemma EventsDurable(ops: seq<Op>, p: nat, i: nat)
    requires i < p <= |ops| && ops[i].Store? && Persistence.Durable(LsEvents(ops[..p]), i)
    ensures DurableBefore(ops, i, p)
  {
    var evs := LsEvents(ops[..p]);
    if f, e :| i < f < e < p && Persistence.FlushOf(evs[f], evs[i].w) && evs[e].Fence? {
      assert FlushesStore(ops[f], ops[i].w) && ops[e].Fence?;
    } else {
      var e :| i < e < p && evs[e].WriteBack?;
      assert IsBorder(ops[e]);
    }
  }

  lemma OpsDurable(ops: seq<Op>, p: nat, i: nat)
    requires i < p <= |ops| && ops[i].Store? && DurableBefore(ops, i, p)
    ensures Persistence.Durable(LsEvents(ops[..p]), i)
  {
    var evs := LsEvents(ops[..p]);
    if f, e :| i < f < e < p && FlushesStore(ops[f], ops[i].w) && ops[e].Fence? {
      assert Persistence.FlushOf(evs[f], evs[i].w) && evs[e].Fence?;
    } else {
      var e :| i < e < p && IsBorder(ops[e]);
      assert evs[e].WriteBack?;
    }
  }
}
