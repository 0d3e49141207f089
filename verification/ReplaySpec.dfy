/**
 * What the two-thread replay leaves behind, read off the operations: which stores are in the image, and which are still
 * in the list of the cache.
 */
module ReplaySpec {
  import opened Memory
  import opened TraceOps
  import opened CacheSpec
  import P = Persistence

  /** What is replayed when thread 1 is cut at position `cut`: the operations before `start1`, a write-back of all, the
      operations of thread 1 before the cut, and those of thread 2. */
  function ReplayOf(ops: seq<Op>, start1: nat, cut: nat, start2: nat): seq<P.Event>
    requires start1 <= cut <= start2 <= |ops|
  {
    ReplayEvents(ops[..start1]) + [P.WriteBack] + ReplayEvents(ops[start1..cut]) + ReplayEvents(ops[start2..])
  }

  // ---- By position, without naming the replay ----

  predicate Kept(cut: nat, start2: nat, i: nat) { i < cut || start2 <= i }

  /** Of the operations that are kept, a flush covers the store at `i` and a fence follows. */
  ghost predicate PersistedAmong(ops: seq<Op>, cut: nat, start2: nat, i: nat)
    requires i < |ops| && ops[i].Store?
  {
    exists f, e :: i < f < e < |ops| && Kept(cut, start2, f) && Kept(cut, start2, e)
                   && FlushesStore(ops[f], ops[i].w) && ops[e].Fence?
  }

  /** The store at `i` reaches the image: it is from before thread 1, or persisted. */
  ghost predicate Reaches(ops: seq<Op>, start1: nat, cut: nat, start2: nat, i: nat) {
    i < |ops| && ops[i].Store? && Kept(cut, start2, i) && (i < start1 || PersistedAmong(ops, cut, start2, i))
  }

  /** The store at `i` stays in the list. */
  ghost predicate Waits(ops: seq<Op>, start1: nat, cut: nat, start2: nat, i: nat) {
    start1 <= i < |ops| && ops[i].Store? && Kept(cut, start2, i) && !PersistedAmong(ops, cut, start2, i)
  }

  ghost function Reaching(ops: seq<Op>, start1: nat, cut: nat, start2: nat): set<nat> {
    set i | 0 <= i < |ops| && Reaches(ops, start1, cut, start2, i)
  }

  ghost function Waiting(ops: seq<Op>, start1: nat, cut: nat, start2: nat): set<nat> {
    set i | 0 <= i < |ops| && Waits(ops, start1, cut, start2, i)
  }

  /** The list has exactly the waiting stores in program order. The image has exactly the reaching ones, each once; in
      program order when every store fits in a line. */
  ghost predicate RolledBack(init: Image, ops: seq<Op>, start1: nat, cut: nat, start2: nat, s: Flat) {
    && P.Writes(s.ops) == WritesAt(ops, Waiting(ops, start1, cut, start2), 0, |ops|)
    && HasWrites(init, s.img, WritesAt(ops, Reaching(ops, start1, cut, start2), 0, |ops|))
    && (AllStoresFit(ops) ==> s.img == PutAll(init, WritesAt(ops, Reaching(ops, start1, cut, start2), 0, |ops|)))
  }

  ghost predicate HasWrites(init: Image, img: Image, ws: seq<Write>) {
    exists order :: img == PutAll(init, order) && multiset(order) == multiset(ws)
  }

  ghost predicate AllStoresFit(ops: seq<Op>) { forall i :: 0 <= i < |ops| && ops[i].Store? ==> ops[i].w.Fits() }

  // ---- Events and positions ----

  /** The operation behind event `k`. */
  function Place(start1: nat, cut: nat, start2: nat, k: nat): int {
    if k < start1 then k else if k <= cut then k - 1 else k - 1 - cut + start2
  }

  ghost predicate EventIs(evs: seq<P.Event>, ops: seq<Op>, start1: nat, cut: nat, start2: nat, k: nat) {
    var i := Place(start1, cut, start2, k);
    k < |evs| && 0 <= i < |ops| && Kept(cut, start2, i) && evs[k] == ReplayEvent(ops[i])
  }

  /** The events are those of the kept operations, and a write-back where thread 1 starts. */
  ghost predicate IsReplay(evs: seq<P.Event>, ops: seq<Op>, start1: nat, cut: nat, start2: nat) {
    && start1 <= cut <= start2 <= |ops| && |evs| == cut + 1 + |ops| - start2 && evs[start1] == P.WriteBack
    && forall k :: 0 <= k < |evs| && k != start1 ==> EventIs(evs, ops, start1, cut, start2, k)
  }

  lemma ReplayIs(ops: seq<Op>, start1: nat, cut: nat, start2: nat)
    requires start1 <= cut <= start2 <= |ops|
    ensures IsReplay(ReplayOf(ops, start1, cut, start2), ops, start1, cut, start2)
  {
    var evs := ReplayOf(ops, start1, cut, start2);
    forall k | 0 <= k < |evs| && k != start1 ensures EventIs(evs, ops, start1, cut, start2, k) {
    }
  }

  /** The event of a kept operation. */
  function EventOf(start1: nat, cut: nat, start2: nat, i: nat): int {
    if i < start1 then i else if i < cut then i + 1 else i + 1 + cut - start2
  }

  lemma EventOfPlace(evs: seq<P.Event>, ops: seq<Op>, start1: nat, cut: nat, start2: nat, i: nat)
    requires IsReplay(evs, ops, start1, cut, start2) && i < |ops| && Kept(cut, start2, i)
    ensures var k := EventOf(start1, cut, start2, i);
            && 0 <= k < |evs| && k != start1 && Place(start1, cut, start2, k) == i && evs[k] == ReplayEvent(ops[i])
  {
    assert EventIs(evs, ops, start1, cut, start2, EventOf(start1, cut, start2, i));
  }

  /** Durable in the replay is being from before thread 1 or persisted among the kept operations. */
  lemma DurableIff(evs: seq<P.Event>, ops: seq<Op>, start1: nat, cut: nat, start2: nat, k: nat)
    requires IsReplay(evs, ops, start1, cut, start2) && k < |evs| && evs[k].Store?
    ensures EventIs(evs, ops, start1, cut, start2, k)
    ensures var i := Place(start1, cut, start2, k);
            ops[i].Store? && (P.Durable(evs, k) <==> i < start1 || PersistedAmong(ops, cut, start2, i))
  {
    assert EventIs(evs, ops, start1, cut, start2, k);
    var i := Place(start1, cut, start2, k);
    if P.Durable(evs, k) {
      DurableOnlyIf(evs, ops, start1, cut, start2, k);
    }
    if i >= start1 && PersistedAmong(ops, cut, start2, i) {
      DurableIfAmong(evs, ops, start1, cut, start2, k);
    }
  }

  lemma DurableOnlyIf(evs: seq<P.Event>, ops: seq<Op>, start1: nat, cut: nat, start2: nat, k: nat)
    requires IsReplay(evs, ops, start1, cut, start2) && k < |evs| && evs[k].Store? && P.Durable(evs, k)
    requires EventIs(evs, ops, start1, cut, start2, k) && ops[Place(start1, cut, start2, k)].Store?
    ensures Place(start1, cut, start2, k) < start1 || PersistedAmong(ops, cut, start2, Place(start1, cut, start2, k))
  {
    if f, e :| k < f < e < |evs| && P.FlushOf(evs[f], evs[k].w) && evs[e].Fence? {
      assert EventIs(evs, ops, start1, cut, start2, f) && EventIs(evs, ops, start1, cut, start2, e);
      var pf, pe := Place(start1, cut, start2, f), Place(start1, cut, start2, e);
      assert FlushesStore(ops[pf], ops[Place(start1, cut, start2, k)].w) && ops[pe].Fence?;
    } else {
      var e :| k < e < |evs| && evs[e].WriteBack?;
      assert e == start1 || EventIs(evs, ops, start1, cut, start2, e);
    }
  }

  lemma DurableIfAmong(evs: seq<P.Event>, ops: seq<Op>, start1: nat, cut: nat, start2: nat, k: nat)
    requires IsReplay(evs, ops, start1, cut, start2) && k < |evs| && evs[k].Store?
    requires EventIs(evs, ops, start1, cut, start2, k) && ops[Place(start1, cut, start2, k)].Store?
    requires PersistedAmong(ops, cut, start2, Place(start1, cut, start2, k))
    ensures P.Durable(evs, k)
  {
    var i := Place(start1, cut, start2, k);
    var f, e :| i < f < e < |ops| && Kept(cut, start2, f) && Kept(cut, start2, e)
                && FlushesStore(ops[f], ops[i].w) && ops[e].Fence?;
    EventOfPlace(evs, ops, start1, cut, start2, f);
    EventOfPlace(evs, ops, start1, cut, start2, e);
    var kf, ke := EventOf(start1, cut, start2, f), EventOf(start1, cut, start2, e);
    assert k < kf < ke;
    assert P.FlushOf(evs[kf], evs[k].w) && evs[ke].Fence?;
  }

  // ---- The stores of the replay ----

  lemma {:induction false} StoresAtSplit(evs: seq<P.Event>, keep: set<nat>, lo: nat, mid: nat, hi: nat)
    requires lo <= mid <= hi <= |evs|
    ensures P.StoresAt(evs, keep, lo, hi) == P.StoresAt(evs, keep, lo, mid) + P.StoresAt(evs, keep, mid, hi)
    decreases hi
  {
    if mid < hi {
      StoresAtSplit(evs, keep, lo, mid, hi - 1);
    }
  }

  lemma {:induction false} WritesAtSplit(ops: seq<Op>, keep: set<nat>, lo: nat, mid: nat, hi: nat)
    requires lo <= mid <= hi <= |ops|
    ensures WritesAt(ops, keep, lo, hi) == WritesAt(ops, keep, lo, mid) + WritesAt(ops, keep, mid, hi)
    decreases hi
  {
    if mid < hi {
      WritesAtSplit(ops, keep, lo, mid, hi - 1);
    }
  }

  lemma {:induction false} NoneKept(ops: seq<Op>, keep: set<nat>, lo: nat, hi: nat)
    requires lo <= hi <= |ops| && forall i :: lo <= i < hi ==> i !in keep
    ensures WritesAt(ops, keep, lo, hi) == []
    decreases hi
  {
    if lo < hi {
      NoneKept(ops, keep, lo, hi - 1);
    }
  }

  /** `kept` has the event of a store exactly when `keep` has its position. */
  ghost predicate SameAt(start1: nat, cut: nat, start2: nat, keep: set<nat>, kept: set<nat>, k: nat) {
    k == start1 || (k in kept <==> Place(start1, cut, start2, k) in keep)
  }

  ghost predicate AllSame(evs: seq<P.Event>, start1: nat, cut: nat, start2: nat, keep: set<nat>, kept: set<nat>) {
    forall k :: 0 <= k < |evs| ==> SameAt(start1, cut, start2, keep, kept, k)
  }

  /** The stores that the replay has kept, by position. */
  lemma ReplayStores(evs: seq<P.Event>, ops: seq<Op>, start1: nat, cut: nat, start2: nat, keep: set<nat>,
                     kept: set<nat>)
    requires IsReplay(evs, ops, start1, cut, start2) && AllSame(evs, start1, cut, start2, keep, kept)
    requires forall i :: i in keep ==> Kept(cut, start2, i)
    ensures P.StoresAt(evs, kept, 0, |evs|) == WritesAt(ops, keep, 0, |ops|)
  {
    var xs, ys := WritesAt(ops, keep, 0, start1), WritesAt(ops, keep, start1, cut);
    var zs := WritesAt(ops, keep, start2, |ops|);
    ReplayParts(evs, ops, start1, cut, start2, keep, kept);
    NoneKept(ops, keep, cut, start2);
    WritesAtParts(ops, keep, start1, cut, start2);
    Glue(xs, ys, zs);
  }

  lemma Glue(xs: seq<Write>, ys: seq<Write>, zs: seq<Write>)
    ensures xs + [] + ys + zs == xs + ys + [] + zs
  {
  }

  lemma ReplayParts(evs: seq<P.Event>, ops: seq<Op>, start1: nat, cut: nat, start2: nat, keep: set<nat>,
                    kept: set<nat>)
    requires IsReplay(evs, ops, start1, cut, start2) && AllSame(evs, start1, cut, start2, keep, kept)
    ensures P.StoresAt(evs, kept, 0, |evs|)
         == WritesAt(ops, keep, 0, start1) + [] + WritesAt(ops, keep, start1, cut) + WritesAt(ops, keep, start2, |ops|)
  {
    StoresAtParts(evs, kept, start1, cut + 1);
    NoStoreAt(evs, kept, start1);
    FirstPart(evs, ops, start1, cut, start2, keep, kept);
    SecondPart(evs, ops, start1, cut, start2, keep, kept);
    ThirdPart(evs, ops, start1, cut, start2, keep, kept);
  }

  lemma FirstPart(evs: seq<P.Event>, ops: seq<Op>, start1: nat, cut: nat, start2: nat, keep: set<nat>,
                    kept: set<nat>)
    requires IsReplay(evs, ops, start1, cut, start2) && AllSame(evs, start1, cut, start2, keep, kept)
    ensures P.StoresAt(evs, kept, 0, start1) == WritesAt(ops, keep, 0, start1)
  {
    ReplayPart(evs, ops, start1, cut, start2, keep, kept, 0, start1, 0, start1);
  }

  lemma SecondPart(evs: seq<P.Event>, ops: seq<Op>, start1: nat, cut: nat, start2: nat, keep: set<nat>,
                    kept: set<nat>)
    requires IsReplay(evs, ops, start1, cut, start2) && AllSame(evs, start1, cut, start2, keep, kept)
    ensures P.StoresAt(evs, kept, start1 + 1, cut + 1) == WritesAt(ops, keep, start1, cut)
  {
    ReplayPart(evs, ops, start1, cut, start2, keep, kept, start1 + 1, cut + 1, start1, cut);
  }

  lemma ThirdPart(evs: seq<P.Event>, ops: seq<Op>, start1: nat, cut: nat, start2: nat, keep: set<nat>,
                    kept: set<nat>)
    requires IsReplay(evs, ops, start1, cut, start2) && AllSame(evs, start1, cut, start2, keep, kept)
    ensures P.StoresAt(evs, kept, cut + 1, |evs|) == WritesAt(ops, keep, start2, |ops|)
  {
    ReplayPart(evs, ops, start1, cut, start2, keep, kept, cut + 1, |evs|, start2, |ops|);
  }

  lemma NoStoreAt(evs: seq<P.Event>, keep: set<nat>, k: nat)
    requires k < |evs| && !evs[k].Store?
    ensures P.StoresAt(evs, keep, k, k + 1) == []
  {
    assert P.StoresAt(evs, keep, k, k) == [];
  }

  lemma StoresAtParts(evs: seq<P.Event>, keep: set<nat>, a: nat, b: nat)
    requires a < b <= |evs|
    ensures P.StoresAt(evs, keep, 0, |evs|)
         == P.StoresAt(evs, keep, 0, a) + P.StoresAt(evs, keep, a, a + 1) + P.StoresAt(evs, keep, a + 1, b)
            + P.StoresAt(evs, keep, b, |evs|)
  {
    StoresAtSplit(evs, keep, 0, a, a + 1);
    StoresAtSplit(evs, keep, 0, a + 1, b);
    StoresAtSplit(evs, keep, 0, b, |evs|);
  }

  lemma WritesAtParts(ops: seq<Op>, keep: set<nat>, a: nat, b: nat, c: nat)
    requires a <= b <= c <= |ops|
    ensures WritesAt(ops, keep, 0, |ops|)
         == WritesAt(ops, keep, 0, a) + WritesAt(ops, keep, a, b) + WritesAt(ops, keep, b, c)
            + WritesAt(ops, keep, c, |ops|)
  {
    WritesAtSplit(ops, keep, 0, a, b);
    WritesAtSplit(ops, keep, 0, b, c);
    WritesAtSplit(ops, keep, 0, c, |ops|);
  }

  /** One stretch of the replay: its events from `lo` to `hi` are the operations from `from` to `to`. */
  lemma ReplayPart(evs: seq<P.Event>, ops: seq<Op>, start1: nat, cut: nat, start2: nat, keep: set<nat>,
                   kept: set<nat>, lo: nat, hi: nat, from: nat, to: nat)
    requires IsReplay(evs, ops, start1, cut, start2) && AllSame(evs, start1, cut, start2, keep, kept)
    requires lo <= hi <= |evs| && to <= |ops| && to - from == hi - lo
    requires || (lo == from && hi <= start1) || (lo == from + 1 && start1 < lo && hi <= cut + 1)
             || (lo == from - start2 + cut + 1 && cut < lo)
    ensures P.StoresAt(evs, kept, lo, hi) == WritesAt(ops, keep, from, to)
  {
    var d := from - lo;
    forall k | lo <= k < hi ensures AlikeAt(ops, evs, keep, kept, d, k) {
      assert EventIs(evs, ops, start1, cut, start2, k);
      assert SameAt(start1, cut, start2, keep, kept, k) && Place(start1, cut, start2, k) == k + d;
    }
    SameStores(ops, evs, keep, kept, lo, hi, from, to, d);
  }

  // ---- What is left behind ----

  ghost function RankSet(evs: seq<P.Event>, lo: nat, hi: nat): set<nat> {
    set k | 0 <= k < |evs| && P.HasRank(evs, k, lo, hi)
  }

  lemma ReachingAt(evs: seq<P.Event>, ops: seq<Op>, start1: nat, cut: nat, start2: nat, k: nat)
    requires IsReplay(evs, ops, start1, cut, start2) && k < |evs|
    ensures SameAt(start1, cut, start2, Reaching(ops, start1, cut, start2), RankSet(evs, 2, 3), k)
    ensures SameAt(start1, cut, start2, Waiting(ops, start1, cut, start2), RankSet(evs, 0, 2), k)
  {
    if k != start1 {
      assert EventIs(evs, ops, start1, cut, start2, k);
      var i := Place(start1, cut, start2, k);
      if evs[k].Store? {
        DurableIff(evs, ops, start1, cut, start2, k);
        RankIs(evs, k);
      }
      assert Reaches(ops, start1, cut, start2, i) <==> P.HasRank(evs, k, 2, 3);
      assert Waits(ops, start1, cut, start2, i) <==> P.HasRank(evs, k, 0, 2);
    }
  }

  lemma RankIs(evs: seq<P.Event>, k: nat)
    requires k < |evs| && evs[k].Store?
    ensures P.HasRank(evs, k, 2, 3) <==> P.Durable(evs, k)
    ensures P.HasRank(evs, k, 0, 2) <==> !P.Durable(evs, k)
  {
  }

  lemma ReplayRanked(evs: seq<P.Event>, ops: seq<Op>, start1: nat, cut: nat, start2: nat)
    requires IsReplay(evs, ops, start1, cut, start2)
    ensures P.Ranked(P.History(evs), 2, 3) == WritesAt(ops, Reaching(ops, start1, cut, start2), 0, |ops|)
    ensures P.Ranked(P.History(evs), 0, 2) == WritesAt(ops, Waiting(ops, start1, cut, start2), 0, |ops|)
  {
    var keep, keep' := Reaching(ops, start1, cut, start2), Waiting(ops, start1, cut, start2);
    forall k | 0 <= k < |evs|
      ensures SameAt(start1, cut, start2, keep, RankSet(evs, 2, 3), k)
      ensures SameAt(start1, cut, start2, keep', RankSet(evs, 0, 2), k)
    {
      ReachingAt(evs, ops, start1, cut, start2, k);
    }
    P.RankedAt(evs, RankSet(evs, 2, 3), 2, 3);
    P.RankedAt(evs, RankSet(evs, 0, 2), 0, 2);
    ReplayStores(evs, ops, start1, cut, start2, keep, RankSet(evs, 2, 3));
    ReplayStores(evs, ops, start1, cut, start2, keep', RankSet(evs, 0, 2));
  }

  /** After the replay the image and the list hold what the positions say. */
  lemma ReplayRolledBack(init: Image, ops: seq<Op>, start1: nat, cut: nat, start2: nat)
    requires start1 <= cut <= start2 <= |ops|
    ensures RolledBack(init, ops, start1, cut, start2, FlatRun(init, ReplayOf(ops, start1, cut, start2)))
  {
    var evs := ReplayOf(ops, start1, cut, start2);
    ReplayIs(ops, start1, cut, start2);
    ReplayRanked(evs, ops, start1, cut, start2);
    FlatRunWritten(init, evs);
    WrittenAreDurable(evs);
    if AllStoresFit(ops) {
      ReplayFits(evs, ops, start1, cut, start2);
      ReplayTracks(init, evs);
    }
  }

  lemma ReplayFits(evs: seq<P.Event>, ops: seq<Op>, start1: nat, cut: nat, start2: nat)
    requires IsReplay(evs, ops, start1, cut, start2) && AllStoresFit(ops)
    ensures P.Fitting(evs)
  {
    forall k | 0 <= k < |evs| && evs[k].Store? ensures evs[k].w.Fits() {
      assert EventIs(evs, ops, start1, cut, start2, k);
    }
  }
}
