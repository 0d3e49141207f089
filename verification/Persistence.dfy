/**
 * What may be persistent after a trace: the reference that both simulated caches are proved against.
 * Every store carries a mark (Store.flushing is 0, 1 or 2); the history keeps all stores with their marks.
 */
module Persistence {
  import opened Memory

  datatype Event =
    | Store(w: Write)
    | Flush(addr: nat)
    | Fence
    | WriteBack          // all pending stores reach the image
    | Other              // loads, locks: no effect on persistence

  datatype Mark = Clear | Flushing | Fenced {
    function Rank(): nat { match this case Clear => 0 case Flushing => 1 case Fenced => 2 }
  }

  datatype Entry = Entry(w: Write, mark: Mark)

  // ---- What the marks mean, directly on the trace ----

  predicate FlushOf(ev: Event, w: Write) { ev.Flush? && InFlush(ev.addr, w.addr, |w.bytes|) }

  ghost predicate Flushed(evs: seq<Event>, i: nat)
    requires i < |evs| && evs[i].Store?
  {
    exists f :: i < f < |evs| && FlushOf(evs[f], evs[i].w)
  }

  /** The store at `i` is durable: some later flush covers it and a fence follows, or all was written back. */
  ghost predicate Durable(evs: seq<Event>, i: nat)
    requires i < |evs| && evs[i].Store?
  {
    || (exists f, e :: i < f < e < |evs| && FlushOf(evs[f], evs[i].w) && evs[e].Fence?)
    || (exists e :: i < e < |evs| && evs[e].WriteBack?)
  }

  ghost function MarkAt(evs: seq<Event>, i: nat): Mark
    requires i < |evs| && evs[i].Store?
  {
    if Durable(evs, i) then Fenced else if Flushed(evs, i) then Flushing else Clear
  }

  // ---- The same marks, one event at a time ----

  function NextMark(e: Entry, ev: Event): Mark {
    match ev
    case Flush(_) => if e.mark.Clear? && FlushOf(ev, e.w) then Flushing else e.mark
    case Fence => if e.mark.Flushing? then Fenced else e.mark
    case WriteBack => Fenced
    case _ => e.mark
  }

  function Remark(h: seq<Entry>, ev: Event): seq<Entry> {
    seq(|h|, i requires 0 <= i < |h| => h[i].(mark := NextMark(h[i], ev)))
  }

  function Extend(h: seq<Entry>, ev: Event): seq<Entry> {
    Remark(h, ev) + (if ev.Store? then [Entry(ev.w, Clear)] else [])
  }

  /** All stores of a trace in program order, each with its current mark. */
  function History(evs: seq<Event>): seq<Entry> {
    if evs == [] then [] else Extend(History(evs[..|evs| - 1]), evs[|evs| - 1])
  }

  /** The positions of the stores of a trace. */
  function StorePositions(evs: seq<Event>): (ps: seq<nat>)
    ensures forall k :: 0 <= k < |ps| ==> ps[k] < |evs| && evs[ps[k]].Store?
    ensures forall i :: 0 <= i < |evs| && evs[i].Store? ==> i in ps
  {
    if evs == [] then []
    else
      var n := |evs| - 1;
      var ps := StorePositions(evs[..n]);
      assert forall i :: 0 <= i < n && evs[i].Store? ==> evs[..n][i].Store? && i in ps;
      if evs[n].Store? then ps + [n] else ps
  }

  lemma MarkStep(evs: seq<Event>, i: nat)
    requires i < |evs| - 1 && evs[i].Store?
    ensures MarkAt(evs, i) == NextMark(Entry(evs[i].w, MarkAt(evs[..|evs| - 1], i)), evs[|evs| - 1])
  {
    var n := |evs| - 1;
    var front := evs[..n];
    assert forall k :: 0 <= k < n ==> front[k] == evs[k];
    if Durable(front, i) {
      assert Durable(evs, i);
    } else if evs[n].Fence? && Flushed(front, i) {
      var f :| i < f < n && FlushOf(front[f], front[i].w);
      assert FlushOf(evs[f], evs[i].w) && evs[n].Fence?;
    } else if Flushed(front, i) {
      var f :| i < f < n && FlushOf(front[f], front[i].w);
      assert FlushOf(evs[f], evs[i].w);
    }
  }

  lemma {:induction false} HistoryLength(evs: seq<Event>)
    ensures |History(evs)| == |StorePositions(evs)|
  {
    if evs != [] {
      HistoryLength(evs[..|evs| - 1]);
    }
  }

  /** The running marks are exactly the marks read off the whole trace: store number `k` of the history is the store
      at its position, with the mark of that position. */
  lemma {:induction false} HistoryMarks(evs: seq<Event>, k: nat)
    requires k < |StorePositions(evs)|
    ensures |History(evs)| == |StorePositions(evs)|
    ensures var i := StorePositions(evs)[k]; History(evs)[k] == Entry(evs[i].w, MarkAt(evs, i))
  {
    var n := |evs| - 1;
    var front, ps := evs[..n], StorePositions(evs[..n]);
    HistoryLength(evs);
    HistoryLength(front);
    if k < |ps| {
      HistoryMarks(front, k);
      MarkStep(evs, ps[k]);
    }
  }

  // ---- Order inside a cacheline ----

  ghost predicate Fitting(evs: seq<Event>) { forall i :: 0 <= i < |evs| && evs[i].Store? ==> evs[i].w.Fits() }

  ghost predicate EntriesFit(h: seq<Entry>) { forall i :: 0 <= i < |h| ==> h[i].w.Fits() }

  /** On one line, an earlier store is never less persistent than a later one. */
  ghost predicate LineOrdered(h: seq<Entry>) {
    forall i, j :: 0 <= i < j < |h| && LineOf(h[i].w.addr) == LineOf(h[j].w.addr) ==>
      h[i].mark.Rank() >= h[j].mark.Rank()
  }

  lemma {:induction false} HistoryLineOrdered(evs: seq<Event>)
    requires Fitting(evs)
    ensures EntriesFit(History(evs)) && LineOrdered(History(evs))
  {
    if evs != [] {
      var n := |evs| - 1;
      var h, ev := History(evs[..n]), evs[n];
      assert Fitting(evs[..n]) by { assert forall i :: 0 <= i < n ==> evs[..n][i] == evs[i]; }
      HistoryLineOrdered(evs[..n]);
      if ev.Flush? {
        forall i | 0 <= i < |h| ensures FlushOf(ev, h[i].w) <==> LineOf(h[i].w.addr) == LineOf(ev.addr) {
          InFlushIsSameLine(ev.addr, h[i].w);
        }
      }
    }
  }

  /** The entries whose mark ranks in [lo, hi). */
  function Keep(h: seq<Entry>, lo: nat, hi: nat): seq<Entry> {
    if h == [] then []
    else
      var e := h[|h| - 1];
      Keep(h[..|h| - 1], lo, hi) + (if lo <= e.mark.Rank() < hi then [e] else [])
  }

  function Writes(h: seq<Entry>): seq<Write> { seq(|h|, i requires 0 <= i < |h| => h[i].w) }

  /** The stores whose mark ranks in [lo, hi), in program order. */
  function Ranked(h: seq<Entry>, lo: nat, hi: nat): seq<Write> { Writes(Keep(h, lo, hi)) }

  function EntriesOn(h: seq<Entry>, line: nat): seq<Entry> {
    if h == [] then []
    else
      var e := h[|h| - 1];
      EntriesOn(h[..|h| - 1], line) + (if LineOf(e.w.addr) == line then [e] else [])
  }

  lemma {:induction false} WritesOnLine(h: seq<Entry>, line: nat)
    ensures Writes(EntriesOn(h, line)) == OnLine(Writes(h), line)
  {
    if h != [] {
      WritesOnLine(h[..|h| - 1], line);
      assert Writes(h)[..|h| - 1] == Writes(h[..|h| - 1]);
    }
  }

  lemma {:induction false} KeepFits(h: seq<Entry>, lo: nat, hi: nat)
    requires EntriesFit(h)
    ensures EntriesFit(Keep(h, lo, hi)) && AllFit(Ranked(h, lo, hi))
    ensures forall i :: 0 <= i < |Keep(h, lo, hi)| ==> lo <= Keep(h, lo, hi)[i].mark.Rank() < hi
  {
    if h != [] {
      KeepFits(h[..|h| - 1], lo, hi);
    }
  }

  lemma {:induction false} KeepAll(h: seq<Entry>)
    ensures Keep(h, 0, 3) == h
  {
    if h != [] {
      KeepAll(h[..|h| - 1]);
    }
  }

  /** The stores on one line whose mark ranks in [lo, hi). */
  function RankedOn(h: seq<Entry>, line: nat, lo: nat, hi: nat): seq<Write> {
    if h == [] then []
    else
      var e := h[|h| - 1];
      RankedOn(h[..|h| - 1], line, lo, hi)
      + (if lo <= e.mark.Rank() < hi && LineOf(e.w.addr) == line then [e.w] else [])
  }

  lemma {:induction false} RankedOnLine(h: seq<Entry>, line: nat, lo: nat, hi: nat)
    ensures OnLine(Ranked(h, lo, hi), line) == RankedOn(h, line, lo, hi)
  {
    if h != [] {
      var e, front := h[|h| - 1], h[..|h| - 1];
      RankedOnLine(front, line, lo, hi);
      if lo <= e.mark.Rank() < hi {
        assert Ranked(h, lo, hi) == Ranked(front, lo, hi) + [e.w];
        OnLineConcat(Ranked(front, lo, hi), [e.w], line);
      } else {
        assert Keep(h, lo, hi) == Keep(front, lo, hi);
      }
    }
  }

  lemma {:induction false} NoneRanked(h: seq<Entry>, line: nat, lo: nat, hi: nat)
    requires forall i :: 0 <= i < |h| && LineOf(h[i].w.addr) == line ==> h[i].mark.Rank() >= hi
    ensures RankedOn(h, line, lo, hi) == []
  {
    if h != [] {
      NoneRanked(h[..|h| - 1], line, lo, hi);
    }
  }

  /** Per line, the stores of rank `mid` and above come before those below: writing the two groups one after
      the other is writing all of them in program order. */
  lemma {:induction false} LineSplit(h: seq<Entry>, line: nat, lo: nat, mid: nat)
    requires LineOrdered(h) && lo <= mid <= 3
    ensures RankedOn(h, line, lo, 3) == RankedOn(h, line, mid, 3) + RankedOn(h, line, lo, mid)
  {
    if h != [] {
      var front, e := h[..|h| - 1], h[|h| - 1];
      LineSplit(front, line, lo, mid);
      if LineOf(e.w.addr) == line && e.mark.Rank() >= mid {
        NoneRanked(front, line, lo, mid);
      }
    }
  }

  /** Writing the stores of rank `mid` and above, then the rest down to `lo`, is writing them in program order. */
  lemma PutSplit(init: Image, h: seq<Entry>, lo: nat, mid: nat)
    requires EntriesFit(h) && LineOrdered(h) && lo <= mid <= 3
    ensures PutAll(PutAll(init, Ranked(h, mid, 3)), Ranked(h, lo, mid)) == PutAll(init, Ranked(h, lo, 3))
  {
    var xs, ys := Ranked(h, mid, 3), Ranked(h, lo, mid);
    PutAllConcat(init, xs, ys);
    KeepFits(h, lo, 3);
    KeepFits(h, mid, 3);
    KeepFits(h, lo, mid);
    forall line ensures OnLine(xs + ys, line) == OnLine(Ranked(h, lo, 3), line) {
      LineSplit(h, line, lo, mid);
      RankedOnLine(h, line, lo, 3);
      RankedOnLine(h, line, mid, 3);
      RankedOnLine(h, line, lo, mid);
      OnLineConcat(xs, ys, line);
    }
    SameLinesSameImage(init, xs + ys, Ranked(h, lo, 3));
  }

  /** The lowest rank that an event makes persistent. */
  function Threshold(ev: Event): nat { match ev case Fence => 1 case WriteBack => 0 case _ => 2 }

  lemma RankedLast(h: seq<Entry>, lo: nat, hi: nat)
    requires h != []
    ensures Ranked(h, lo, hi) == Ranked(h[..|h| - 1], lo, hi)
                                 + (if lo <= h[|h| - 1].mark.Rank() < hi then [h[|h| - 1].w] else [])
  {
  }

  /** How one event changes the fenced and the pending part of a history. */
  lemma {:induction false} KeepRemark(h: seq<Entry>, ev: Event)
    ensures Ranked(Remark(h, ev), 2, 3) == Ranked(h, Threshold(ev), 3)
    ensures Keep(Remark(h, ev), 0, 2) == Remark(Keep(h, 0, Threshold(ev)), ev)
  {
    if h != [] {
      var front, e := h[..|h| - 1], h[|h| - 1];
      KeepRemark(front, ev);
      assert Remark(h, ev)[..|h| - 1] == Remark(front, ev);
      assert Remark([e], ev) == [e.(mark := NextMark(e, ev))];
      RankedLast(h, Threshold(ev), 3);
      RankedLast(Remark(h, ev), 2, 3);
    }
  }

  lemma {:induction false} KeepConcat(h: seq<Entry>, e: Entry, lo: nat, hi: nat)
    ensures Keep(h + [e], lo, hi) == Keep(h, lo, hi) + (if lo <= e.mark.Rank() < hi then [e] else [])
  {
    assert (h + [e])[..|h|] == h;
  }

  // ---- The same stores, by their positions in the trace ----

  /** The stores at the positions in `keep` from `lo` up to `hi`, in program order. */
  ghost function StoresAt(evs: seq<Event>, keep: set<nat>, lo: nat, hi: nat): seq<Write>
    requires hi <= |evs|
    decreases hi
  {
    if hi <= lo then []
    else
      var n := hi - 1;
      StoresAt(evs, keep, lo, n) + (if n in keep && evs[n].Store? then [evs[n].w] else [])
  }

  /** A store whose mark ranks in [lo, hi). */
  ghost predicate HasRank(evs: seq<Event>, i: nat, lo: nat, hi: nat) {
    i < |evs| && evs[i].Store? && lo <= MarkAt(evs, i).Rank() < hi
  }

  /** `keep` has the positions of those stores. */
  ghost predicate Keeps(evs: seq<Event>, keep: set<nat>, lo: nat, hi: nat) {
    forall i :: 0 <= i < |evs| && evs[i].Store? ==> (i in keep <==> HasRank(evs, i, lo, hi))
  }

  lemma {:induction false} StorePositionsFront(evs: seq<Event>, n: nat)
    requires n <= |evs|
    ensures StorePositions(evs[..n]) <= StorePositions(evs)
    decreases |evs|
  {
    if n == |evs| {
      assert evs[..n] == evs;
    } else {
      assert evs[..|evs| - 1][..n] == evs[..n];
      StorePositionsFront(evs[..|evs| - 1], n);
    }
  }

  lemma {:induction false} RankedUpTo(evs: seq<Event>, keep: set<nat>, lo: nat, hi: nat, n: nat)
    requires n <= |evs| && Keeps(evs, keep, lo, hi)
    ensures |StorePositions(evs[..n])| <= |History(evs)|
    ensures Ranked(History(evs)[..|StorePositions(evs[..n])|], lo, hi) == StoresAt(evs, keep, 0, n)
    decreases n
  {
    HistoryLength(evs);
    StorePositionsFront(evs, n);
    if n > 0 {
      var k := |StorePositions(evs[..n - 1])|;
      RankedUpTo(evs, keep, lo, hi, n - 1);
      assert evs[..n][..n - 1] == evs[..n - 1];
      if evs[n - 1].Store? {
        HistoryMarks(evs, k);
        assert HasRank(evs, n - 1, lo, hi) <==> lo <= History(evs)[k].mark.Rank() < hi;
        assert History(evs)[..k + 1][..k] == History(evs)[..k];
        RankedLast(History(evs)[..k + 1], lo, hi);
      }
    }
  }

  /** The stores of a history by rank are the stores of the trace by mark. */
  lemma RankedAt(evs: seq<Event>, keep: set<nat>, lo: nat, hi: nat)
    requires Keeps(evs, keep, lo, hi)
    ensures Ranked(History(evs), lo, hi) == StoresAt(evs, keep, 0, |evs|)
  {
    RankedUpTo(evs, keep, lo, hi, |evs|);
    HistoryLength(evs);
    assert evs[..|evs|] == evs;
    assert History(evs)[..|History(evs)|] == History(evs);
  }

  /** On a line, only the positions of its own stores matter. */
  lemma {:induction false} StoresAtOnLine(evs: seq<Event>, keep: set<nat>, other: set<nat>, line: nat, hi: nat)
    requires hi <= |evs|
    requires forall i :: 0 <= i < hi && evs[i].Store? && LineOf(evs[i].w.addr) == line ==> (i in keep <==> i in other)
    ensures OnLine(StoresAt(evs, keep, 0, hi), line) == OnLine(StoresAt(evs, other, 0, hi), line)
  {
    if hi > 0 {
      var n := hi - 1;
      StoresAtOnLine(evs, keep, other, line, n);
      var w := if evs[n].Store? then [evs[n].w] else [];
      OnLineConcat(StoresAt(evs, keep, 0, n), if n in keep then w else [], line);
      OnLineConcat(StoresAt(evs, other, 0, n), if n in other then w else [], line);
      if evs[n].Store? && LineOf(evs[n].w.addr) != line {
        SkipsOtherLine(evs[n].w, line);
      }
    }
  }

  lemma SkipsOtherLine(w: Write, line: nat)
    requires LineOf(w.addr) != line
    ensures OnLine([w], line) == []
  {
    assert [w][..0] == [];
  }

  lemma {:induction false} StoresAtFit(evs: seq<Event>, keep: set<nat>, hi: nat)
    requires hi <= |evs| && Fitting(evs)
    ensures AllFit(StoresAt(evs, keep, 0, hi))
  {
    if hi > 0 {
      StoresAtFit(evs, keep, hi - 1);
    }
  }
}
