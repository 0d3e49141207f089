/**
 * The store side of the race analysis of one API call: at every fence the stores it persists are collected,
 * and at the end of the call whatever is still pending.
 */
module RaceOps {
  import opened Memory
  import opened TraceOps
  import opened CacheSpec
  import opened LockSet
  import opened MemOps
  import P = Persistence
  import TX = TraceExtract

  /** Collected at position `pos`, with the locks held there. */
  datatype RaceOp = RaceOp(pos: nat, stores: seq<Write>, locks: set<nat>)

  /** The flat cache of the analysis: pending stores in program order. */
  class Cache {
    var ops: seq<P.Entry>

    constructor ()
      ensures ops == []
    {
      ops := [];
    }

    method AcceptFlush(flushAddr: nat)
      requires forall i :: 0 <= i < |ops| ==> !ops[i].mark.Fenced?
      modifies this
      ensures ops == P.Remark(old(ops), P.Flush(flushAddr))
    {
      ops := MarkFlushed(ops, flushAddr);
    }
  }

  // ---- Races ----

  function Selected(ws: seq<Write>, lp: set<int>): seq<Write> {
    if ws == [] then []
    else Selected(ws[..|ws| - 1], lp) + (if ws[|ws| - 1].id in lp then [ws[|ws| - 1]] else [])
  }

  /** The stores that the last operation collects: at a fence those being flushed, at the end of the call,
      when no lock is held, all that are pending. */
  function Collected(ops: seq<Op>, lp: set<int>): seq<Write>
    requires ops != []
  {
    var n := |ops| - 1;
    var h := P.History(ReplayEvents(ops[..n]));
    if ops[n].Fence? then Selected(P.Ranked(h, 1, 2), lp)
    else if ops[n].APIEnd? && Held(ops[..n]) == [] then Selected(P.Ranked(h, 0, 2), lp)
    else []
  }

  function Races(ops: seq<Op>, lp: set<int>): seq<RaceOp> {
    if ops == [] then []
    else
      var n := |ops| - 1;
      Races(ops[..n], lp)
      + (if Collected(ops, lp) != [] then [RaceOp(n, Collected(ops, lp), set a | a in Held(ops[..n]))] else [])
  }

  datatype Result = Done(races: seq<RaceOp>) | Failed

  method InitRaceOps(ops: seq<Op>, lp: set<int>) returns (r: Result)
    ensures r.Failed? <==> exists u :: 0 <= u < |ops| && ops[u].UnLock? && NoLockHeld(ops, u)
    ensures r.Done? ==> forall k :: 0 <= k < |r.races| ==> LocksHeld(ops, r.races[k])
    ensures r.Done? ==> r.races == Races(ops, lp)
  {
    FailsIff(ops, |ops|);
    assert ops[..|ops|] == ops;
    forall k | 0 <= k < |Races(ops, lp)| ensures LocksHeld(ops, Races(ops, lp)[k]) {
      RaceLocks(ops, lp, k);
    }
    r := CollectRaces(ops, lp);
  }

  /** The locks of a race are exactly the addresses held where it is. */
  ghost predicate LocksHeld(ops: seq<Op>, r: RaceOp) {
    r.pos < |ops| && forall a :: a in r.locks <==> exists j: nat :: HeldAt(ops, j, r.pos) && ops[j].addr == a
  }

  /** The loop over the operations. */
  method CollectRaces(ops: seq<Op>, lp: set<int>) returns (r: Result)
    ensures r.Failed? <==> Fails(ops)
    ensures r.Done? ==> r.races == Races(ops, lp)
  {
    var cache := new Cache();
    var locks: seq<nat>, races: seq<RaceOp> := [], [];
    assert ops[..0] == [] && ReplayEvents(ops[..0]) == [];
    for n := 0 to |ops|
      invariant cache.ops == P.Keep(P.History(ReplayEvents(ops[..n])), 0, 2)
      invariant locks == Held(ops[..n]) && races == Races(ops[..n], lp) && !Fails(ops[..n])
    {
      var op := ops[n];
      assert ops[..n + 1][..n] == ops[..n];
      HistoryStep(ops, n);
      ghost var h := P.History(ReplayEvents(ops[..n]));
      if op.UnLock? && locks == [] {
        FailsStays(ops, n + 1);
        return Failed;
      }
      var stores := Collect(op, cache, locks, lp, h);
      assert stores == Collected(ops[..n + 1], lp);
      if |stores| > 0 {
        races := races + [RaceOp(n, stores, set a | a in locks)];
      }
      Update(op, cache, h);
      if op.Lock? {
        locks := locks + [op.addr];
      } else if op.UnLock? {
        locks := ReleaseLock(locks, op.addr);
      }
    }
    assert ops[..|ops|] == ops;
    r := Done(races);
  }

  /** The lists built at a fence and at the end of the call. */
  method Collect(op: Op, cache: Cache, locks: seq<nat>, lp: set<int>, ghost h: seq<P.Entry>)
    returns (stores: seq<Write>)
    requires cache.ops == P.Keep(h, 0, 2)
    ensures stores == if op.Fence? then Selected(P.Ranked(h, 1, 2), lp)
                      else if op.APIEnd? && locks == [] then Selected(P.Ranked(h, 0, 2), lp)
                      else []
  {
    stores := [];
    KeepKeep(h, 1, 2);
    if op.Fence? {
      stores := Selected(P.Ranked(cache.ops, 1, 2), lp);
    } else if op.APIEnd? && locks == [] && cache.ops != [] {
      stores := Selected(P.Writes(cache.ops), lp);
    }
  }

  method Update(op: Op, cache: Cache, ghost h: seq<P.Entry>)
    requires cache.ops == P.Keep(h, 0, 2)
    modifies cache
    ensures cache.ops == P.Keep(P.Extend(h, ReplayEvent(op)), 0, 2)
  {
    UpdateStep(op, h);
    NonePendingFenced(h);
    match op
    case Store(w, _) => cache.ops := cache.ops + [P.Entry(w, P.Clear)];
    case Flush(a, _, _) => cache.AcceptFlush(a);
    case Fence(_, _) => cache.ops := P.Keep(cache.ops, 0, 1);
    case _ =>
  }

  /** What one operation does to the pending stores. */
  lemma UpdateStep(op: Op, h: seq<P.Entry>)
    ensures var ops, after := P.Keep(h, 0, 2), P.Keep(P.Extend(h, ReplayEvent(op)), 0, 2);
            && (op.Store? ==> after == ops + [P.Entry(op.w, P.Clear)])
            && (op.Flush? ==> after == P.Remark(ops, P.Flush(op.addr)))
            && (op.Fence? ==> after == P.Keep(ops, 0, 1))
            && (!op.Store? && !op.Flush? && !op.Fence? ==> after == ops)
  {
    PendingStep(h, map[], ReplayEvent(op));
  }

  lemma NonePendingFenced(h: seq<P.Entry>)
    ensures forall i :: 0 <= i < |P.Keep(h, 0, 2)| ==> !P.Keep(h, 0, 2)[i].mark.Fenced?
  {
    KeepMembers(h, 0, 2);
    forall i | 0 <= i < |P.Keep(h, 0, 2)| ensures !P.Keep(h, 0, 2)[i].mark.Fenced? {
      assert P.Keep(h, 0, 2)[i] in P.Keep(h, 0, 2);
    }
  }

  lemma HistoryStep(ops: seq<Op>, n: nat)
    requires n < |ops|
    ensures P.History(ReplayEvents(ops[..n + 1])) == P.Extend(P.History(ReplayEvents(ops[..n])), ReplayEvent(ops[n]))
  {
    assert ReplayEvents(ops[..n + 1])[..n] == ReplayEvents(ops[..n]);
  }

  // ---- Every chosen store is in exactly one race ----

  /** The fence at `e` is the first one after the first flush that covers the store at `i`. */
  ghost predicate PersistsAt(ops: seq<Op>, i: nat, e: nat)
    requires i < |ops| && ops[i].Store? && e < |ops|
  {
    ops[e].Fence? && !PersistedBefore(ops, i, e) && PersistedBefore(ops, i, e + 1)
  }

  /** Ids number the operations of the slice. */
  ghost predicate Numbered(ops: seq<Op>) {
    forall i, j :: 0 <= i < j < |ops| ==> ops[i].Id() < ops[j].Id()
  }

  /** The marks of the history, read off the operations before `n`. */
  lemma MarkMeaning(ops: seq<Op>, n: nat, i: nat)
    requires i < n <= |ops| && ops[i].Store?
    ensures var evs := ReplayEvents(ops[..n]);
            && evs[i] == P.Store(ops[i].w)
            && (P.MarkAt(evs, i).Fenced? <==> PersistedBefore(ops, i, n))
            && (P.MarkAt(evs, i).Flushing? <==>
                  !PersistedBefore(ops, i, n) && exists f :: i < f < n && FlushesStore(ops[f], ops[i].w))
  {
    var evs := ReplayEvents(ops[..n]);
    assert forall k :: 0 <= k < n ==> evs[k] == ReplayEvent(ops[k]);
    assert forall k :: 0 <= k < n ==> (P.FlushOf(evs[k], ops[i].w) <==> FlushesStore(ops[k], ops[i].w));
    assert forall k :: 0 <= k < n ==> (evs[k].Fence? <==> ops[k].Fence?);
    if P.Durable(evs, i) {
      var f, e :| i < f < e < |evs| && P.FlushOf(evs[f], evs[i].w) && evs[e].Fence?;
      assert FlushesStore(ops[f], ops[i].w) && ops[e].Fence?;
    }
    if PersistedBefore(ops, i, n) {
      var f, e :| i < f < e < n && FlushesStore(ops[f], ops[i].w) && ops[e].Fence?;
      assert P.FlushOf(evs[f], evs[i].w) && evs[e].Fence?;
    }
  }

  lemma {:induction false} SelectedMembers(ws: seq<Write>, lp: set<int>, w: Write)
    ensures w in Selected(ws, lp) <==> w in ws && w.id in lp
  {
    if ws != [] {
      SelectedMembers(ws[..|ws| - 1], lp, w);
      assert ws == ws[..|ws| - 1] + [ws[|ws| - 1]];
    }
  }

  lemma {:induction false} RankedMembers(h: seq<P.Entry>, lo: nat, hi: nat, w: Write)
    ensures w in P.Ranked(h, lo, hi) <==> exists k :: 0 <= k < |h| && h[k].w == w && lo <= h[k].mark.Rank() < hi
  {
    if h != [] {
      var front := h[..|h| - 1];
      RankedMembers(front, lo, hi, w);
      P.RankedLast(h, lo, hi);
      assert forall k :: 0 <= k < |front| ==> front[k] == h[k];
    }
  }

  /** An entry of the history before `n` that holds the store at `i` is for that position. */
  lemma EntryOfStore(ops: seq<Op>, n: nat, i: nat, k: nat)
    requires Numbered(ops) && i < |ops| && ops[i].Store? && n <= |ops|
    requires var evs := ReplayEvents(ops[..n]); k < |P.History(evs)| && P.History(evs)[k].w == ops[i].w
    ensures i < n && P.History(ReplayEvents(ops[..n]))[k].mark == P.MarkAt(ReplayEvents(ops[..n]), i)
  {
    var evs := ReplayEvents(ops[..n]);
    P.HistoryLength(evs);
    P.HistoryMarks(evs, k);
    var j := P.StorePositions(evs)[k];
    assert evs[j] == ReplayEvent(ops[j]) && ops[j].w == ops[i].w;
  }

  /** A store before `n` is in the history. */
  lemma StoreHasEntry(ops: seq<Op>, n: nat, i: nat) returns (k: nat)
    requires i < n <= |ops| && ops[i].Store?
    ensures k < |P.History(ReplayEvents(ops[..n]))| && P.History(ReplayEvents(ops[..n]))[k].w == ops[i].w
  {
    var evs := ReplayEvents(ops[..n]);
    assert evs[i] == P.Store(ops[i].w) && i in P.StorePositions(evs);
    k :| 0 <= k < |P.StorePositions(evs)| && P.StorePositions(evs)[k] == i;
    P.HistoryMarks(evs, k);
  }

  /** A store is in the history before `n` with its own mark, and only there. */
  lemma RankedStore(ops: seq<Op>, n: nat, i: nat, lo: nat, hi: nat)
    requires Numbered(ops) && i < |ops| && ops[i].Store? && n <= |ops|
    ensures ops[i].w in P.Ranked(P.History(ReplayEvents(ops[..n])), lo, hi) <==>
            i < n && lo <= P.MarkAt(ReplayEvents(ops[..n]), i).Rank() < hi
  {
    var h := P.History(ReplayEvents(ops[..n]));
    RankedMembers(h, lo, hi, ops[i].w);
    if k :| 0 <= k < |h| && h[k].w == ops[i].w && lo <= h[k].mark.Rank() < hi {
      EntryOfStore(ops, n, i, k);
    }
    if i < n {
      var k := StoreHasEntry(ops, n, i);
      EntryOfStore(ops, n, i, k);
    }
  }

  /** Which chosen stores are flushing, and which are pending, before `p`. */
  lemma ChosenBefore(ops: seq<Op>, lp: set<int>, p: nat, i: nat)
    requires Numbered(ops) && p <= |ops| && i < |ops| && ops[i].Store? && ops[i].w.id in lp
    ensures var h := P.History(ReplayEvents(ops[..p]));
            && (ops[i].w in Selected(P.Ranked(h, 1, 2), lp) <==>
                  i < p && !PersistedBefore(ops, i, p) && exists f :: i < f < p && FlushesStore(ops[f], ops[i].w))
            && (ops[i].w in Selected(P.Ranked(h, 0, 2), lp) <==> i < p && !PersistedBefore(ops, i, p))
  {
    var h := P.History(ReplayEvents(ops[..p]));
    SelectedMembers(P.Ranked(h, 1, 2), lp, ops[i].w);
    SelectedMembers(P.Ranked(h, 0, 2), lp, ops[i].w);
    RankedStore(ops, p, i, 1, 2);
    RankedStore(ops, p, i, 0, 2);
    if i < p {
      MarkMeaning(ops, p, i);
    }
  }

  /** A fence persists the store exactly when it is flushing there. */
  lemma PersistsAtFence(ops: seq<Op>, p: nat, i: nat)
    requires p < |ops| && i < |ops| && ops[i].Store?
    ensures PersistsAt(ops, i, p) <==>
            && ops[p].Fence? && i < p && !PersistedBefore(ops, i, p)
            && exists f :: i < f < p && FlushesStore(ops[f], ops[i].w)
  {
    if ops[p].Fence? {
      if f :| i < f < p && FlushesStore(ops[f], ops[i].w) {
        assert PersistedBefore(ops, i, p + 1);
      }
    }
  }

  /** When the operation at `p` collects the store at `i`. */
  lemma CollectedIff(ops: seq<Op>, lp: set<int>, p: nat, i: nat)
    requires Numbered(ops) && p < |ops| && i < |ops| && ops[i].Store? && ops[i].w.id in lp
    ensures ops[i].w in Collected(ops[..p + 1], lp) <==>
            || PersistsAt(ops, i, p)
            || (ops[p].APIEnd? && NoLockHeld(ops, p) && i < p && !PersistedBefore(ops, i, p))
  {
    NoneHeld(ops, p);
    assert ops[..p + 1][..p] == ops[..p];
    ChosenBefore(ops, lp, p, i);
    PersistsAtFence(ops, p, i);
  }

  /** The race holds what the operation at its position collects. */
  ghost predicate HoldsCollected(ops: seq<Op>, lp: set<int>, r: RaceOp) {
    r.pos < |ops| && r.stores == Collected(ops[..r.pos + 1], lp) && r.locks == set a | a in Held(ops[..r.pos])
  }

  lemma HoldsLater(ops: seq<Op>, lp: set<int>, r: RaceOp)
    requires ops != [] && HoldsCollected(ops[..|ops| - 1], lp, r)
    ensures HoldsCollected(ops, lp, r)
  {
    assert ops[..|ops| - 1][..r.pos + 1] == ops[..r.pos + 1] && ops[..|ops| - 1][..r.pos] == ops[..r.pos];
  }

  lemma LastRace(ops: seq<Op>, lp: set<int>)
    requires ops != []
    ensures var front, all := Races(ops[..|ops| - 1], lp), Races(ops, lp);
            && front <= all && |all| <= |front| + 1
            && (|all| > |front| ==> all[|front|].pos == |ops| - 1 && HoldsCollected(ops, lp, all[|front|]))
  {
    assert ops[..|ops|] == ops;
  }

  lemma {:induction false} RaceHolds(ops: seq<Op>, lp: set<int>, k: nat)
    requires k < |Races(ops, lp)|
    ensures HoldsCollected(ops, lp, Races(ops, lp)[k])
  {
    var front := ops[..|ops| - 1];
    LastRace(ops, lp);
    if k < |Races(front, lp)| {
      RaceHolds(front, lp, k);
      HoldsLater(ops, lp, Races(front, lp)[k]);
    }
  }

  lemma RaceLocks(ops: seq<Op>, lp: set<int>, k: nat)
    requires k < |Races(ops, lp)|
    ensures LocksHeld(ops, Races(ops, lp)[k])
  {
    RaceHolds(ops, lp, k);
    forall a { HeldAddress(ops, Races(ops, lp)[k].pos, a); }
  }

  /** Positions increase. */
  lemma {:induction false} RacesInOrder(ops: seq<Op>, lp: set<int>, j: nat, k: nat)
    requires j < k < |Races(ops, lp)|
    ensures Races(ops, lp)[j].pos < Races(ops, lp)[k].pos
  {
    var front := ops[..|ops| - 1];
    if k < |Races(front, lp)| {
      RacesInOrder(front, lp, j, k);
    } else {
      RaceHolds(front, lp, j);
    }
  }

  /** Whatever collects something has a race, and later operations do not move it. */
  lemma RaceOfLast(ops: seq<Op>, lp: set<int>)
    requires ops != [] && Collected(ops, lp) != []
    ensures Races(ops, lp) != [] && Races(ops, lp)[|Races(ops, lp)| - 1].pos == |ops| - 1
  {
  }

  lemma {:induction false} RacesGrow(ops: seq<Op>, lp: set<int>, n: nat)
    requires n <= |ops|
    ensures Races(ops[..n], lp) <= Races(ops, lp)
    decreases |ops|
  {
    if n == |ops| {
      assert ops[..n] == ops;
    } else {
      assert ops[..|ops| - 1][..n] == ops[..n];
      RacesGrow(ops[..|ops| - 1], lp, n);
    }
  }

  lemma RaceAt(ops: seq<Op>, lp: set<int>, p: nat) returns (k: nat)
    requires p < |ops| && Collected(ops[..p + 1], lp) != []
    ensures k < |Races(ops, lp)| && Races(ops, lp)[k].pos == p
  {
    RaceOfLast(ops[..p + 1], lp);
    RacesGrow(ops, lp, p + 1);
    k := |Races(ops[..p + 1], lp)| - 1;
  }

  /** A slice of the trace for one call: no operation but the last ends a call. The last may also be the APIBegin of
      the call that cuts this one off. */
  ghost predicate Slice(ops: seq<Op>) { forall i :: 0 <= i < |ops| - 1 ==> !ops[i].APIEnd? }

  /** The slice of a call that ends. */
  ghost predicate OneCall(ops: seq<Op>) { ops != [] && ops[|ops| - 1].APIEnd? && Slice(ops) }

  /** Where the store at `i` must be collected: the first fence after its first later flush, else the end. */
  ghost predicate Home(ops: seq<Op>, i: nat, p: nat)
    requires i < |ops| && ops[i].Store?
  {
    p < |ops| && (PersistsAt(ops, i, p) || (p == |ops| - 1 && ops[p].APIEnd? && !PersistedBefore(ops, i, p)))
  }

  lemma {:induction false} FirstPersist(ops: seq<Op>, i: nat, n: nat) returns (e: nat)
    requires i < |ops| && ops[i].Store? && n <= |ops| && PersistedBefore(ops, i, n)
    ensures e < n && PersistsAt(ops, i, e)
    decreases n
  {
    if PersistedBefore(ops, i, n - 1) {
      e := FirstPersist(ops, i, n - 1);
    } else {
      e := n - 1;
    }
  }

  ghost predicate InRace(ops: seq<Op>, lp: set<int>, k: nat, w: Write)
    requires k < |Races(ops, lp)|
  {
    w in Races(ops, lp)[k].stores
  }

  lemma InRaceIsHome(ops: seq<Op>, lp: set<int>, i: nat, k: nat)
    requires Numbered(ops) && Slice(ops) && i < |ops| && ops[i].Store? && ops[i].w.id in lp
    requires k < |Races(ops, lp)| && InRace(ops, lp, k, ops[i].w)
    ensures Home(ops, i, Races(ops, lp)[k].pos)
  {
    RaceHolds(ops, lp, k);
    CollectedIsHome(ops, lp, i, Races(ops, lp)[k].pos);
  }

  lemma CollectedIsHome(ops: seq<Op>, lp: set<int>, i: nat, p: nat)
    requires Numbered(ops) && Slice(ops) && i < |ops| && ops[i].Store? && ops[i].w.id in lp
    requires p < |ops| && ops[i].w in Collected(ops[..p + 1], lp)
    ensures Home(ops, i, p)
  {
    CollectedIff(ops, lp, p, i);
  }

  /** A store has one home only. */
  lemma OneHome(ops: seq<Op>, i: nat, p: nat, q: nat)
    requires i < |ops| && ops[i].Store? && Home(ops, i, p) && Home(ops, i, q)
    ensures p == q
  {
  }

  /** The store is persisted in the slice, or the call ends with no lock held. */
  ghost predicate IsCollected(ops: seq<Op>, i: nat)
    requires i < |ops| && ops[i].Store?
  {
    PersistedBefore(ops, i, |ops|) || (ops[|ops| - 1].APIEnd? && NoLockHeld(ops, |ops| - 1))
  }

  /** Conservation: a chosen store is in at most one race, which is at its home. It is in one if and only if a fence of
      the slice persists it or the call ends with no lock held. */
  lemma StoreInOneRace(ops: seq<Op>, lp: set<int>, i: nat)
    requires Numbered(ops) && Slice(ops) && i < |ops| && ops[i].Store? && ops[i].w.id in lp
    ensures forall k :: 0 <= k < |Races(ops, lp)| && InRace(ops, lp, k, ops[i].w) ==>
              Home(ops, i, Races(ops, lp)[k].pos)
    ensures forall j, k :: 0 <= j < k < |Races(ops, lp)| ==>
              !(InRace(ops, lp, j, ops[i].w) && InRace(ops, lp, k, ops[i].w))
    ensures IsCollected(ops, i) <==> exists k :: 0 <= k < |Races(ops, lp)| && InRace(ops, lp, k, ops[i].w)
  {
    var races, last := Races(ops, lp), |ops| - 1;
    forall k | 0 <= k < |races| && InRace(ops, lp, k, ops[i].w) ensures Home(ops, i, races[k].pos) {
      InRaceIsHome(ops, lp, i, k);
    }
    forall j, k | 0 <= j < k < |races| && InRace(ops, lp, j, ops[i].w) && InRace(ops, lp, k, ops[i].w) ensures false {
      OneHome(ops, i, races[j].pos, races[k].pos);
      RacesInOrder(ops, lp, j, k);
    }
    InSomeRace(ops, lp, i);
  }

  /** Such a store is in some race. */
  lemma SomeRaceHas(ops: seq<Op>, lp: set<int>, i: nat) returns (k: nat)
    requires Numbered(ops) && Slice(ops) && i < |ops| && ops[i].Store? && ops[i].w.id in lp
    requires IsCollected(ops, i)
    ensures k < |Races(ops, lp)| && InRace(ops, lp, k, ops[i].w)
  {
    var p := |ops| - 1;
    if PersistedBefore(ops, i, |ops|) {
      p := FirstPersist(ops, i, |ops|);
    } else {
      PersistedMonotone(ops, i, p, |ops|);
    }
    assert ops[i].w in Collected(ops[..p + 1], lp) by { CollectedIff(ops, lp, p, i); }
    k := CollectedHasRace(ops, lp, i, p);
  }

  lemma CollectedHasRace(ops: seq<Op>, lp: set<int>, i: nat, p: nat) returns (k: nat)
    requires p < |ops| && i < |ops| && ops[i].Store? && ops[i].w in Collected(ops[..p + 1], lp)
    ensures k < |Races(ops, lp)| && InRace(ops, lp, k, ops[i].w)
  {
    k := RaceAt(ops, lp, p);
    RaceHolds(ops, lp, k);
  }

  predicate CollectsAt(ops: seq<Op>, lp: set<int>, p: nat, w: Write)
    requires p < |ops|
  {
    w in Collected(ops[..p + 1], lp)
  }

  ghost predicate NeverCollected(ops: seq<Op>, lp: set<int>, w: Write) {
    forall p :: 0 <= p < |ops| ==> !CollectsAt(ops, lp, p, w)
  }

  lemma NeverInRace(ops: seq<Op>, lp: set<int>, w: Write)
    requires NeverCollected(ops, lp, w)
    ensures forall k :: 0 <= k < |Races(ops, lp)| ==> !InRace(ops, lp, k, w)
  {
    forall k | 0 <= k < |Races(ops, lp)| ensures !InRace(ops, lp, k, w) {
      RaceHolds(ops, lp, k);
      assert !CollectsAt(ops, lp, Races(ops, lp)[k].pos, w);
    }
  }

  /** Any other store is in none. */
  lemma NoRaceAtAll(ops: seq<Op>, lp: set<int>, i: nat)
    requires Numbered(ops) && Slice(ops) && i < |ops| && ops[i].Store? && ops[i].w.id in lp
    requires !IsCollected(ops, i)
    ensures forall k :: 0 <= k < |Races(ops, lp)| ==> !InRace(ops, lp, k, ops[i].w)
  {
    forall p | 0 <= p < |ops| ensures !CollectsAt(ops, lp, p, ops[i].w) {
      NotCollected(ops, lp, i, p);
    }
    NeverInRace(ops, lp, ops[i].w);
  }

  /** The exact condition for a chosen store to be in some race. */
  lemma InSomeRace(ops: seq<Op>, lp: set<int>, i: nat)
    requires Numbered(ops) && Slice(ops) && i < |ops| && ops[i].Store? && ops[i].w.id in lp
    ensures IsCollected(ops, i) <==> exists k :: 0 <= k < |Races(ops, lp)| && InRace(ops, lp, k, ops[i].w)
  {
    if IsCollected(ops, i) {
      var k := SomeRaceHas(ops, lp, i);
    } else {
      NoRaceAtAll(ops, lp, i);
    }
  }

  /** In a call that ends the condition is about what comes before its end. */
  lemma InSomeRaceOfCall(ops: seq<Op>, lp: set<int>, i: nat)
    requires Numbered(ops) && OneCall(ops) && i < |ops| && ops[i].Store? && ops[i].w.id in lp
    ensures PersistedBefore(ops, i, |ops| - 1) || NoLockHeld(ops, |ops| - 1) <==>
            exists k :: 0 <= k < |Races(ops, lp)| && InRace(ops, lp, k, ops[i].w)
  {
    CollectedOfCall(ops, i);
    InSomeRace(ops, lp, i);
  }

  lemma CollectedOfCall(ops: seq<Op>, i: nat)
    requires OneCall(ops) && i < |ops| && ops[i].Store?
    ensures IsCollected(ops, i) <==> PersistedBefore(ops, i, |ops| - 1) || NoLockHeld(ops, |ops| - 1)
  {
    PersistedMonotone(ops, i, |ops| - 1, |ops|);
    if PersistedBefore(ops, i, |ops|) {
      var f, e :| i < f < e < |ops| && FlushesStore(ops[f], ops[i].w) && ops[e].Fence?;
      assert e < |ops| - 1;
    }
  }

  /** A call whose locks are all released loses no chosen store. */
  lemma BalancedLosesNothing(ops: seq<Op>, lp: set<int>, i: nat)
    requires Numbered(ops) && OneCall(ops) && i < |ops| && ops[i].Store? && ops[i].w.id in lp
    requires Unambiguous(ops, |ops| - 1) && AllReleased(ops, |ops| - 1)
    ensures exists k :: 0 <= k < |Races(ops, lp)| && InRace(ops, lp, k, ops[i].w)
  {
    BalancedHoldsNone(ops, |ops| - 1);
    InSomeRaceOfCall(ops, lp, i);
  }

  lemma NotCollected(ops: seq<Op>, lp: set<int>, i: nat, p: nat)
    requires Numbered(ops) && Slice(ops) && i < |ops| && ops[i].Store? && ops[i].w.id in lp && p < |ops|
    requires !IsCollected(ops, i)
    ensures ops[i].w !in Collected(ops[..p + 1], lp)
  {
    CollectedIff(ops, lp, p, i);
    PersistedMonotone(ops, i, p + 1, |ops|);
  }

  lemma PersistedMonotone(ops: seq<Op>, i: nat, m: nat, n: nat)
    requires i < |ops| && ops[i].Store? && m <= n <= |ops|
    ensures PersistedBefore(ops, i, m) ==> PersistedBefore(ops, i, n)
  {
  }

  lemma HeldAfterLock(addr: nat, w: Write)
    ensures var ops := [Lock(addr, 0, 0), Store(w, 0)]; Held(ops) == [addr]
  {
    var ops := [Lock(addr, 0, 0), Store(w, 0)];
    assert ops[..1] == [Lock(addr, 0, 0)] && ops[..1][..0] == [];
    assert Held([Lock(addr, 0, 0)]) == [addr];
  }

  /** The input that shows a store in no race: its lock is still held when the call ends. */
  lemma StoreUnderLockIsMissed(w: Write)
    requires w.id == 1
    ensures var ops := [Lock(8, 0, 0), Store(w, 0), APIEnd(2, 0)];
            !exists k :: 0 <= k < |Races(ops, {1})| && InRace(ops, {1}, k, w)
  {
    var ops := [Lock(8, 0, 0), Store(w, 0), APIEnd(2, 0)];
    assert ops[..2] == [Lock(8, 0, 0), Store(w, 0)];
    HeldAfterLock(8, w);
    NoneHeld(ops, 2);
    NoRaceAtAll(ops, {1}, 1);
  }

  /** And another: the call is cut off by the next one, so nothing is collected at its end. */
  lemma CutOffCallIsMissed(w: Write)
    requires w.id == 1
    ensures var ops := [APIBegin(0, 0), Store(w, 0), APIBegin(2, 0)];
            !exists k :: 0 <= k < |Races(ops, {1})| && InRace(ops, {1}, k, w)
  {
    var ops := [APIBegin(0, 0), Store(w, 0), APIBegin(2, 0)];
    NoRaceAtAll(ops, {1}, 1);
  }

  // ---- The slices of a parsed trace ----

  lemma SliceOfCall(ops: seq<Op>, r: (int, int))
    requires TX.IsCall(ops, r) && forall i :: 0 <= i < |ops| ==> ops[i].Id() == i
    ensures Numbered(ops[r.0..r.1 + 1]) && Slice(ops[r.0..r.1 + 1])
    ensures OneCall(ops[r.0..r.1 + 1]) <==> ops[r.1].APIEnd?
  {
    var slice := ops[r.0..r.1 + 1];
    forall i | 0 <= i < |slice| ensures slice[i] == ops[r.0 + i] && slice[i].Id() == r.0 + i {}
    forall i | 0 <= i < |slice| - 1 ensures !slice[i].APIEnd? {
      assert i > 0 ==> !IsBorder(ops[r.0 + i]);
    }
  }

  lemma SliceOfRange(ops: seq<Op>, k: nat)
    requires TX.WellOpened(ops) && k < |TX.RangesOf(ops)| && forall i :: 0 <= i < |ops| ==> ops[i].Id() == i
    ensures var r := TX.RangesOf(ops)[k];
            && 0 <= r.0 < r.1 < |ops| && Numbered(ops[r.0..r.1 + 1]) && Slice(ops[r.0..r.1 + 1])
            && (OneCall(ops[r.0..r.1 + 1]) <==> ops[r.1].APIEnd?)
  {
    TX.RangesAreCalls(ops, k);
    SliceOfCall(ops, TX.RangesOf(ops)[k]);
  }

  /** Each API range of a parsed trace is a numbered slice, and one that ends if its last operation is an APIEnd. */
  lemma ParsedSlice(recs: seq<TX.Record>, ops: seq<Op>, k: nat)
    requires !TX.Fails(recs, false) && ops == TX.Emitted(recs, false) && k < |TX.RangesOf(ops)|
    ensures var r := TX.RangesOf(ops)[k];
            && 0 <= r.0 < r.1 < |ops| && Numbered(ops[r.0..r.1 + 1]) && Slice(ops[r.0..r.1 + 1])
            && (OneCall(ops[r.0..r.1 + 1]) <==> ops[r.1].APIEnd?)
  {
    TX.IdsArePositions(recs, false);
    TX.ParsedWellOpened(recs, false);
    SliceOfRange(ops, k);
  }
}
