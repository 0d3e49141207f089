/** The crash-image generator: replays a trace and, before each chosen store, builds the two crash images. */
module LsValidator {
  import opened Wrappers
  import opened Memory
  import opened CacheSpec
  import opened CrashSpec
  import opened TraceOps
  import opened MemOps
  import opened WitcherCache
  import P = Persistence
  import TX = TraceExtract

  /** The images that the validation program is run on, for the store with this id. */
  datatype Crash = Crash(id: int, case0: seq<Byte>, case1: seq<Byte>)

  /** Which stores are crashed at: those chosen and in range, up to the first operation past the range. */
  function CrashPoints(ops: seq<Op>, idStart: int, idEnd: int, chosen: set<int>, from: nat): seq<nat>
    decreases |ops| - from
  {
    if from >= |ops| || ops[from].Id() > idEnd then []
    else
      (if ops[from].Store? && idStart <= ops[from].Id() && ops[from].Id() in chosen then [from] else [])
      + CrashPoints(ops, idStart, idEnd, chosen, from + 1)
  }

  function ZeroImage(base: nat, size: nat): Image { map a | a in Range(base, size) :: 0 }

  /** The store at `i` is in the case 1 image of a crash at `p`: it is on the line of the crash store, or durable. */
  ghost predicate Stays(ops: seq<Op>, p: nat, i: nat) {
    && i < p < |ops| && ops[i].Store? && ops[p].Store?
    && (LineOf(ops[i].w.addr) == LineOf(ops[p].w.addr) || DurableBefore(ops, i, p))
  }

  ghost function StoresBefore(ops: seq<Op>, p: nat): set<nat>
    requires p <= |ops|
  {
    set i | 0 <= i < p && ops[i].Store?
  }

  ghost function Staying(ops: seq<Op>, p: nat): set<nat> { set i | 0 <= i < p && Stays(ops, p, i) }

  /** What the two images of a crash before the store at position `p` must hold, read off the operations: case 0 is
      sequential memory over all stores before, case 1 over those that stay and then the crash store. */
  ghost predicate ImagesAt(base: nat, size: nat, ops: seq<Op>, p: nat, c: Crash)
    requires p < |ops| && ops[p].Store?
  {
    && ImageOf(base, c.case0) == PutAll(ZeroImage(base, size), WritesAt(ops, StoresBefore(ops, p), 0, p))
    && ImageOf(base, c.case1) == PutAll(ZeroImage(base, size), WritesAt(ops, Staying(ops, p), 0, p) + [ops[p].w])
  }

  /** And both are legal crash states of the trace so far. */
  ghost predicate CrashAt(base: nat, size: nat, ops: seq<Op>, p: nat, c: Crash) {
    && p < |ops| && ops[p].Store? && c.id == ops[p].w.id && ImagesAt(base, size, ops, p, c)
    && var init, evs, w := ZeroImage(base, size), LsEvents(ops[..p]), ops[p].w;
    && ImageOf(base, c.case0) == PutAll(init, StoresOf(evs))
    && LegalCut(evs + [P.Store(w)], CrashCut(evs, w))
    && IsCutImage(init, evs + [P.Store(w)], CrashCut(evs, w), ImageOf(base, c.case1))
  }

  class LSValidator {
    const file: BinaryFile
    const cache: WitcherCache

    constructor (base: nat, size: nat)
      ensures Valid() && fresh(file) && fresh(file.data) && fresh(cache) && cache.repr == {}
      ensures file.base == base && file.data.Length == size
      ensures cache.Abs() == Lined(ZeroImage(base, size), map[])
    {
      var f := new BinaryFile(base, seq(size, _ => 0));
      file := f;
      cache := new WitcherCache(f);
    }

    ghost predicate Valid()
      reads cache, cache.repr
    {
      cache.file == file && cache.Valid()
    }

    /** Case 0: a copy of the image with all pending stores on top, line by line in any order of the lines. */
    method CaseZero() returns (data: seq<Byte>)
      requires Valid()
      ensures |data| == file.data.Length
      ensures ImageOf(file.base, data) == PutLines(cache.Abs().img, cache.Abs().lines, 0)
    {
      var copy := file.Copy();
      ghost var before := cache.Abs();
      var todo := cache.lines.Keys;
      PutSomeAtEnds(before.img, before.lines, 0);
      while todo != {}
        invariant fresh(copy.data) && todo <= cache.lines.Keys
        invariant copy.base == file.base && copy.data.Length == file.data.Length
        invariant copy.Img() == PutSome(before.img, before.lines, todo, 0)
      {
        var line :| line in todo;
        PutOneMoreWhole(before.img, before.lines, todo, line);
        WriteList(copy, cache.lines[line].stores);
        todo := todo - {line};
      }
      data := copy.data[..];
    }

    static method WriteList(f: BinaryFile, stores: seq<P.Entry>)
      requires forall i :: 0 <= i < |stores| ==> f.InRange(stores[i].w)
      modifies f.data
      ensures f.Img() == PutAll(old(f.Img()), P.Writes(stores))
    {
      ghost var ws, img := P.Writes(stores), f.Img();
      assert ws[..0] == [];
      for i := 0 to |stores|
        invariant f.Img() == PutAll(img, ws[..i])
      {
        assert ws[..i + 1] == ws[..i] + [stores[i].w];
        PutAllConcat(img, ws[..i], [stores[i].w]);
        f.DoStore(stores[i].w);
      }
      assert ws[..|stores|] == ws;
    }

    /** A copy of the image with the stores of one line on top, then one more store. */
    method CopyAndWrite(stores: seq<P.Entry>, w: Write) returns (data: seq<Byte>)
      requires file.InRange(w) && forall i :: 0 <= i < |stores| ==> file.InRange(stores[i].w)
      ensures |data| == file.data.Length
      ensures ImageOf(file.base, data) == PutAll(file.Img(), P.Writes(stores) + [w])
    {
      var copy := file.Copy();
      PutAllConcat(file.Img(), P.Writes(stores), [w]);
      WriteList(copy, stores);
      copy.DoStore(w);
      data := copy.data[..];
    }

    /** Case 1: the pending stores of the crash store's line, then the store itself. Looking the line up may
        leave an empty line in the cache. */
    method CaseOneImage(w: Write) returns (data: seq<Byte>)
      requires Valid() && w.Fits() && file.InRange(w)
      modifies cache
      ensures Valid() && fresh(cache.repr - old(cache.repr))
      ensures forall line :: At(cache.Abs().lines, line) == At(old(cache.Abs()).lines, line)
      ensures |data| == file.data.Length
      ensures ImageOf(file.base, data) == CaseOne(old(cache.Abs()), w)
    {
      var l := cache.GetCacheline(w.addr);
      data := CopyAndWrite(l.stores, w);
    }

    method GenCrash(w: Write, ghost init: Image, ghost evs: seq<P.Event>) returns (c: Crash)
      requires Valid() && w.Fits() && file.InRange(w)
      requires P.Fitting(evs) && LinedTracks(init, P.History(evs), cache.Abs())
      modifies cache
      ensures Valid() && fresh(cache.repr - old(cache.repr))
      ensures LinedTracks(init, P.History(evs), cache.Abs())
      ensures c.id == w.id && ImageOf(file.base, c.case0) == PutAll(init, StoresOf(evs))
      ensures LegalCut(evs + [P.Store(w)], CrashCut(evs, w))
      ensures IsCutImage(init, evs + [P.Store(w)], CrashCut(evs, w), ImageOf(file.base, c.case1))
      ensures ImageOf(file.base, c.case1) == PutAll(init, P.StoresAt(evs, Survivors(evs, w), 0, |evs|) + [w])
    {
      PendingCompletesImage(init, evs, cache.Abs());
      CaseOneStores(init, evs, cache.Abs(), w);
      CaseOneLegal(init, evs, cache.Abs(), w);
      var case0 := CaseZero();
      var case1 := CaseOneImage(w);
      c := Crash(w.id, case0, case1);
    }

    /** accept_op, and the write-back that the caller does after a fence or at the border of an API call. */
    method AcceptOp(op: Op)
      requires Valid()
      requires op.Store? ==> op.w.Fits() && file.InRange(op.w)
      modifies cache, cache.repr, file.data
      ensures Valid() && fresh(cache.repr - old(cache.repr))
      ensures cache.Abs() == LinedStep(old(cache.Abs()), LsEvent(op))
    {
      match op
      case Store(w, _) => cache.AcceptStore(w);
      case Flush(a, _, _) => cache.AcceptFlush(a);
      case Fence(_, _) => cache.WriteBackAllFlushingStores();
      case APIBegin(_, _) => cache.WriteBackAllStores();
      case APIEnd(_, _) => cache.WriteBackAllStores();
      case _ =>
    }

    /** The cache has replayed the first `n` operations. */
    ghost predicate Replayed(ops: seq<Op>, n: nat)
      reads cache, cache.repr, file.data
    {
      && Valid() && n <= |ops| && Replayable(ops, file.base, file.data.Length)
      && LinedTracks(ZeroImage(file.base, file.data.Length), P.History(LsEvents(ops[..n])), cache.Abs())
    }

    method CrashBefore(ops: seq<Op>, n: nat) returns (c: Crash)
      requires Replayed(ops, n) && n < |ops| && ops[n].Store?
      modifies cache
      ensures Replayed(ops, n) && fresh(cache.repr - old(cache.repr))
      ensures CrashAt(file.base, file.data.Length, ops, n, c)
    {
      ReplayableFits(ops, n, file.base, file.data.Length);
      AllStaying(ops, n);
      SurvivorsStay(ops, n);
      c := GenCrash(ops[n].w, ZeroImage(file.base, file.data.Length), LsEvents(ops[..n]));
    }

    method Advance(ops: seq<Op>, n: nat)
      requires Replayed(ops, n) && n < |ops|
      modifies cache, cache.repr, file.data
      ensures Replayed(ops, n + 1) && fresh(cache.repr - old(cache.repr))
    {
      ghost var evs, ev := LsEvents(ops[..n]), LsEvent(ops[n]);
      ReplayableFits(ops, n, file.base, file.data.Length);
      P.HistoryLineOrdered(evs);
      LinedStepTracks(ZeroImage(file.base, file.data.Length), P.History(evs), cache.Abs(), ev);
      AcceptOp(ops[n]);
      assert LsEvents(ops[..n + 1]) == evs + [ev];
      assert (evs + [ev])[..|evs|] == evs;
    }

    /** One round of the replay loop. */
    method Visit(ops: seq<Op>, n: nat, crash: bool) returns (cs: seq<Crash>)
      requires Replayed(ops, n) && n < |ops| && (crash ==> ops[n].Store?)
      modifies cache, cache.repr, file.data
      ensures Replayed(ops, n + 1) && fresh(cache.repr - old(cache.repr))
      ensures CrashesAt(file.base, file.data.Length, ops, if crash then [n] else [], cs)
    {
      cs := [];
      if crash {
        var c := CrashBefore(ops, n);
        cs := [c];
      }
      Advance(ops, n);
    }
  }

  lemma AllStaying(ops: seq<Op>, p: nat)
    requires p <= |ops|
    ensures StoresOf(LsEvents(ops[..p])) == WritesAt(ops, StoresBefore(ops, p), 0, p)
  {
    AllStoresAt(LsEvents(ops[..p]), StoresBefore(ops, p));
    SamePrefixStores(ops, LsEvents(ops[..p]), StoresBefore(ops, p), StoresBefore(ops, p), p);
  }

  /** The stores of case 1 by events and by operations. */
  lemma SurvivorsStay(ops: seq<Op>, p: nat)
    requires p < |ops| && ops[p].Store?
    ensures var evs, w := LsEvents(ops[..p]), ops[p].w;
            P.StoresAt(evs, Survivors(evs, w), 0, |evs|) == WritesAt(ops, Staying(ops, p), 0, p)
  {
    var evs, w := LsEvents(ops[..p]), ops[p].w;
    forall i | 0 <= i < p
      ensures StoresAlike(evs[i], ops[i]) && (i in Survivors(evs, w) <==> i in Staying(ops, p))
    {
      SurvivorStays(ops, p, i);
    }
    SamePrefixStores(ops, evs, Staying(ops, p), Survivors(evs, w), p);
  }

  lemma SurvivorStays(ops: seq<Op>, p: nat, i: nat)
    requires i < p < |ops| && ops[p].Store?
    ensures var evs, w := LsEvents(ops[..p]), ops[p].w;
            StoresAlike(evs[i], ops[i]) && (i in Survivors(evs, w) <==> i in Staying(ops, p))
  {
    if ops[i].Store? {
      LsDurable(ops, p, i);
    }
    assert Survives(LsEvents(ops[..p]), ops[p].w, i) <==> Stays(ops, p, i);
  }

  lemma ReplayableFits(ops: seq<Op>, n: nat, base: nat, size: nat)
    requires n <= |ops| && Replayable(ops, base, size)
    ensures P.Fitting(LsEvents(ops[..n]))
  {
    var evs := LsEvents(ops[..n]);
    forall i | 0 <= i < |evs| && evs[i].Store? ensures evs[i].w.Fits() {
      assert ops[i].Store?;
    }
  }

  /** One crash for each point, in order. */
  ghost predicate CrashesAt(base: nat, size: nat, ops: seq<Op>, points: seq<nat>, crashes: seq<Crash>) {
    |crashes| == |points| && forall j :: 0 <= j < |crashes| ==> CrashAt(base, size, ops, points[j], crashes[j])
  }

  /** The crash images of a whole run are those of the chosen stores, each built from the trace before it. */
  method Run(ops: seq<Op>, idStart: int, idEnd: int, chosen: set<int>, base: nat, size: nat)
    returns (crashes: seq<Crash>)
    requires Replayable(ops, base, size)
    ensures CrashesAt(base, size, ops, CrashPoints(ops, idStart, idEnd, chosen, 0), crashes)
  {
    var v := new LSValidator(base, size);
    ghost var done: seq<nat> := [];
    crashes := [];
    assert ops[..0] == [];
    for n := 0 to |ops|
      invariant v.Replayed(ops, n) && fresh(v.cache) && fresh(v.cache.repr) && fresh(v.file.data)
      invariant v.file.base == base && v.file.data.Length == size
      invariant CrashPoints(ops, idStart, idEnd, chosen, 0) == done + CrashPoints(ops, idStart, idEnd, chosen, n)
      invariant CrashesAt(base, size, ops, done, crashes)
    {
      if ops[n].Id() > idEnd {
        return;
      }
      var hit := ops[n].Id() >= idStart && ops[n].Store? && ops[n].Id() in chosen;
      var cs := v.Visit(ops, n, hit);
      ghost var here: seq<nat> := if hit then [n] else [];
      CrashesConcat(base, size, ops, done, crashes, here, cs);
      Associative(done, here, CrashPoints(ops, idStart, idEnd, chosen, n + 1));
      crashes, done := crashes + cs, done + here;
    }
  }

  lemma Associative(xs: seq<nat>, ys: seq<nat>, zs: seq<nat>)
    ensures xs + (ys + zs) == (xs + ys) + zs
  {
  }

  lemma CrashesConcat(base: nat, size: nat, ops: seq<Op>, ps: seq<nat>, cs: seq<Crash>, qs: seq<nat>, ds: seq<Crash>)
    requires CrashesAt(base, size, ops, ps, cs) && CrashesAt(base, size, ops, qs, ds)
    ensures CrashesAt(base, size, ops, ps + qs, cs + ds)
  {
    forall j | 0 <= j < |cs + ds| ensures CrashAt(base, size, ops, (ps + qs)[j], (cs + ds)[j]) {
      if j < |cs| {
        assert (ps + qs)[j] == ps[j] && (cs + ds)[j] == cs[j];
      } else {
        assert (ps + qs)[j] == qs[j - |cs|] && (cs + ds)[j] == ds[j - |cs|];
      }
    }
  }

  /** When ids are positions, the crash points are exactly the chosen stores of the range. */
  lemma {:induction false} CrashPointsAreChosen(ops: seq<Op>, idStart: int, idEnd: int, chosen: set<int>,
                                                from: nat, k: nat)
    requires forall i :: 0 <= i < |ops| ==> ops[i].Id() == i
    ensures k in CrashPoints(ops, idStart, idEnd, chosen, from) <==>
            from <= k < |ops| && ops[k].Store? && idStart <= k <= idEnd && k in chosen
    decreases |ops| - from
  {
    if from < |ops| {
      CrashPointsAreChosen(ops, idStart, idEnd, chosen, from + 1, k);
    }
  }

  ghost predicate Ascending(points: seq<nat>) { forall i, j :: 0 <= i < j < |points| ==> points[i] < points[j] }

  /** They come in ascending order, so each is crashed at once. */
  lemma {:induction false} CrashPointsAscend(ops: seq<Op>, idStart: int, idEnd: int, chosen: set<int>, from: nat)
    ensures var points := CrashPoints(ops, idStart, idEnd, chosen, from);
            Ascending(points) && forall i :: 0 <= i < |points| ==> from <= points[i]
    decreases |ops| - from
  {
    if from < |ops| && ops[from].Id() <= idEnd {
      var rest := CrashPoints(ops, idStart, idEnd, chosen, from + 1);
      CrashPointsAscend(ops, idStart, idEnd, chosen, from + 1);
      var points := CrashPoints(ops, idStart, idEnd, chosen, from);
      assert points == rest || points == [from] + rest;
    }
  }

  /** The stores of the range that are to be crashed at. */
  predicate IsChosen(ops: seq<Op>, idStart: int, idEnd: int, chosen: set<int>, k: nat) {
    k < |ops| && ops[k].Store? && idStart <= k <= idEnd && k in chosen
  }

  /** One crash for each chosen store and for no other operation, in the order of the trace. */
  ghost predicate CrashesAtChosen(base: nat, size: nat, ops: seq<Op>, idStart: int, idEnd: int, chosen: set<int>,
                                  crashes: seq<Crash>)
  {
    exists points: seq<nat> ::
      && CrashesAt(base, size, ops, points, crashes)
      && (forall k: nat :: k in points <==> IsChosen(ops, idStart, idEnd, chosen, k))
      && Ascending(points)
  }

  /** From the records of a trace to the crash images: the trace is refused exactly when it does not parse, and
      otherwise nothing more is asked than stores inside the image, since the parser cuts them at the cachelines. */
  method RunTrace(recs: seq<TX.Record>, idStart: int, idEnd: int, chosen: set<int>, base: nat, size: nat)
    returns (r: Option<seq<Crash>>)
    requires forall i :: 0 <= i < |recs| && recs[i].RecStore? ==>
               recs[i].bytes != [] && base <= recs[i].addr && recs[i].addr + |recs[i].bytes| <= base + size
    ensures r.None? <==> exists n :: 0 <= n < |recs| && TX.BadRecord(recs, n)
    ensures r.Some? ==> TX.Represents(recs, true, TX.Emitted(recs, true))
    ensures r.Some? ==> CrashesAtChosen(base, size, TX.Emitted(recs, true), idStart, idEnd, chosen, r.value)
  {
    var parsed := TX.ExtractOperations(recs, true);
    if parsed.Failed? {
      return None;
    }
    TX.ParsedReplayable(recs, base, size);
    var crashes := Run(parsed.ops, idStart, idEnd, chosen, base, size);
    TX.IdsArePositions(recs, true);
    CrashesAreChosen(base, size, parsed.ops, idStart, idEnd, chosen, crashes);
    return Some(crashes);
  }

  lemma CrashesAreChosen(base: nat, size: nat, ops: seq<Op>, idStart: int, idEnd: int, chosen: set<int>,
                         crashes: seq<Crash>)
    requires forall i :: 0 <= i < |ops| ==> ops[i].Id() == i
    requires CrashesAt(base, size, ops, CrashPoints(ops, idStart, idEnd, chosen, 0), crashes)
    ensures CrashesAtChosen(base, size, ops, idStart, idEnd, chosen, crashes)
  {
    var points := CrashPoints(ops, idStart, idEnd, chosen, 0);
    CrashPointsAscend(ops, idStart, idEnd, chosen, 0);
    forall k: nat ensures k in points <==> IsChosen(ops, idStart, idEnd, chosen, k) {
      CrashPointsAreChosen(ops, idStart, idEnd, chosen, 0, k);
    }
    assert CrashesAt(base, size, ops, points, crashes);
  }
}
