/**
 * The two simulated caches as state machines on values, and their agreement: ReplayCache keeps one list in
 * program order, WitcherCache keeps one list per cacheline. Both are proved against the history of the trace.
 */
module CacheSpec {
  import opened Memory
  import opened Persistence

  // ---- ReplayCache: one list in program order ----

  datatype Flat = Flat(img: Image, ops: seq<Entry>)

  function FlatStep(s: Flat, ev: Event): Flat {
    match ev
    case Store(w) => s.(ops := s.ops + [Entry(w, Clear)])
    case Flush(_) => s.(ops := Remark(s.ops, ev))
    case Fence => Flat(PutAll(s.img, Ranked(s.ops, 1, 2)), Keep(s.ops, 0, 1))
    case WriteBack => Flat(PutAll(s.img, Writes(s.ops)), [])
    case Other => s
  }

  function FlatFrom(s: Flat, evs: seq<Event>): Flat {
    if evs == [] then s else FlatStep(FlatFrom(s, evs[..|evs| - 1]), evs[|evs| - 1])
  }

  function FlatRun(init: Image, evs: seq<Event>): Flat { FlatFrom(Flat(init, []), evs) }

  // ---- WitcherCache: one list per cacheline ----

  datatype Lined = Lined(img: Image, lines: map<nat, seq<Entry>>)

  function At(lines: map<nat, seq<Entry>>, line: nat): seq<Entry> { if line in lines then lines[line] else [] }

  /** Every line writes back its own stores of rank [lo, 2): a byte sees only the list of its own line, so the
      order of the lines does not matter. */
  function PutLines(img: Image, lines: map<nat, seq<Entry>>, lo: nat): Image {
    map a | a in img :: ByteAfter(img[a], Ranked(At(lines, LineOf(a)), lo, 2), a)
  }

  function StoreLine(lines: map<nat, seq<Entry>>, w: Write): map<nat, seq<Entry>> {
    lines[LineOf(w.addr) := At(lines, LineOf(w.addr)) + [Entry(w, Clear)]]
  }

  /** Flushing marks a whole line, and creates it if it is not there. */
  function FlushLine(lines: map<nat, seq<Entry>>, a: nat): map<nat, seq<Entry>> {
    lines[LineOf(a) := Remark(At(lines, LineOf(a)), Flush(a))]
  }

  /** What a fence leaves: the clear stores, without the lines that have none. */
  function ClearLines(lines: map<nat, seq<Entry>>): map<nat, seq<Entry>> {
    map line | line in lines && Keep(lines[line], 0, 1) != [] :: Keep(lines[line], 0, 1)
  }

  function LinedStep(s: Lined, ev: Event): Lined {
    match ev
    case Store(w) => s.(lines := StoreLine(s.lines, w))
    case Flush(a) => s.(lines := FlushLine(s.lines, a))
    case Fence => Lined(PutLines(s.img, s.lines, 1), ClearLines(s.lines))
    case WriteBack => Lined(PutLines(s.img, s.lines, 0), map[])
    case Other => s
  }

  function LinedRun(init: Image, evs: seq<Event>): Lined {
    if evs == [] then Lined(init, map[]) else LinedStep(LinedRun(init, evs[..|evs| - 1]), evs[|evs| - 1])
  }

  // ---- Both follow the history ----

  ghost predicate FlatTracks(init: Image, h: seq<Entry>, s: Flat) {
    s.ops == Keep(h, 0, 2) && s.img == PutAll(init, Ranked(h, 2, 3))
  }

  ghost predicate LinedTracks(init: Image, h: seq<Entry>, s: Lined) {
    && (forall line :: At(s.lines, line) == EntriesOn(Keep(h, 0, 2), line))
    && s.img == PutAll(init, Ranked(h, 2, 3))
  }

  lemma ExtendRanked(h: seq<Entry>, ev: Event)
    ensures Ranked(Extend(h, ev), 2, 3) == Ranked(h, Threshold(ev), 3)
    ensures var kept := Remark(Keep(h, 0, Threshold(ev)), ev);
            Keep(Extend(h, ev), 0, 2) == if ev.Store? then kept + [Entry(ev.w, Clear)] else kept
  {
    KeepRemark(h, ev);
    if ev.Store? {
      KeepConcat(Remark(h, ev), Entry(ev.w, Clear), 2, 3);
      KeepConcat(Remark(h, ev), Entry(ev.w, Clear), 0, 2);
    } else {
      assert Extend(h, ev) == Remark(h, ev);
    }
  }

  lemma {:induction false} KeepKeep(h: seq<Entry>, lo: nat, hi: nat)
    requires hi <= 2
    ensures Keep(Keep(h, 0, 2), lo, hi) == Keep(h, lo, hi)
  {
    if h != [] {
      var front, e := h[..|h| - 1], h[|h| - 1];
      KeepKeep(front, lo, hi);
      if e.mark.Rank() < 2 {
        KeepConcat(Keep(front, 0, 2), e, lo, hi);
      } else {
        assert Keep(h, 0, 2) == Keep(front, 0, 2);
      }
    }
  }

  lemma {:induction false} KeepNone(h: seq<Entry>)
    ensures Keep(h, 0, 0) == []
  {
    if h != [] {
      KeepNone(h[..|h| - 1]);
    }
  }

  /** Events that neither flush nor persist leave the marks alone. */
  lemma RemarkIdle(h: seq<Entry>, ev: Event)
    requires ev.Store? || ev.Other? || (ev.Fence? && forall i :: 0 <= i < |h| ==> h[i].mark.Clear?)
    ensures Remark(h, ev) == h
  {
  }

  /** The flat list follows the pending part of the history, whatever the stores are. */
  lemma PendingStep(h: seq<Entry>, img: Image, ev: Event)
    ensures FlatStep(Flat(img, Keep(h, 0, 2)), ev).ops == Keep(Extend(h, ev), 0, 2)
  {
    ExtendRanked(h, ev);
    match ev
    case Fence =>
      KeepKeep(h, 0, 1);
      KeepMembers(h, 0, 1);
      RemarkIdle(Keep(h, 0, 1), ev) by {
        forall i | 0 <= i < |Keep(h, 0, 1)| ensures Keep(h, 0, 1)[i].mark.Clear? {
          assert Keep(h, 0, 1)[i] in Keep(h, 0, 1);
        }
      }
    case WriteBack => KeepNone(h);
    case Flush(_) =>
    case Store(_) => RemarkIdle(Keep(h, 0, 2), ev);
    case Other => RemarkIdle(Keep(h, 0, 2), ev);
  }

  lemma FlatStepTracks(init: Image, h: seq<Entry>, s: Flat, ev: Event)
    requires EntriesFit(h) && LineOrdered(h) && FlatTracks(init, h, s)
    ensures FlatTracks(init, Extend(h, ev), FlatStep(s, ev))
  {
    ExtendRanked(h, ev);
    PendingStep(h, s.img, ev);
    if ev.Fence? {
      KeepKeep(h, 1, 2);
      PutSplit(init, h, 1, 2);
    } else if ev.WriteBack? {
      PutSplit(init, h, 0, 2);
    }
  }

  lemma {:induction false} ReplayTracks(init: Image, evs: seq<Event>)
    requires Fitting(evs)
    ensures FlatTracks(init, History(evs), FlatRun(init, evs))
  {
    if evs != [] {
      var front := evs[..|evs| - 1];
      assert Fitting(front) by { assert forall i :: 0 <= i < |front| ==> front[i] == evs[i]; }
      ReplayTracks(init, front);
      HistoryLineOrdered(front);
      FlatStepTracks(init, History(front), FlatRun(init, front), evs[|evs| - 1]);
    }
  }

  lemma {:induction false} EntriesOnConcat(h: seq<Entry>, e: Entry, line: nat)
    ensures EntriesOn(h + [e], line) == EntriesOn(h, line) + (if LineOf(e.w.addr) == line then [e] else [])
  {
    assert (h + [e])[..|h|] == h;
  }

  /** Selecting by line commutes with marking. */
  lemma {:induction false} EntriesOnRemark(h: seq<Entry>, line: nat, ev: Event)
    ensures EntriesOn(Remark(h, ev), line) == Remark(EntriesOn(h, line), ev)
  {
    if h != [] {
      var front, e := h[..|h| - 1], h[|h| - 1];
      EntriesOnRemark(front, line, ev);
      var e' := e.(mark := NextMark(e, ev));
      assert Remark(h, ev) == Remark(front, ev) + [e'];
      EntriesOnConcat(Remark(front, ev), e', line);
      assert Remark(EntriesOn(front, line) + [e], ev) == Remark(EntriesOn(front, line), ev) + [e'];
      assert EntriesOn(front, line) + [] == EntriesOn(front, line);
    }
  }

  /** Selecting by line commutes with selecting by rank. */
  lemma {:induction false} EntriesOnKeep(h: seq<Entry>, line: nat, lo: nat, hi: nat)
    ensures EntriesOn(Keep(h, lo, hi), line) == Keep(EntriesOn(h, line), lo, hi)
  {
    if h != [] {
      var front, e := h[..|h| - 1], h[|h| - 1];
      EntriesOnKeep(front, line, lo, hi);
      EntriesOnConcat(Keep(front, lo, hi), e, line);
      KeepConcat(EntriesOn(front, line), e, lo, hi);
      assert Keep(front, lo, hi) + [] == Keep(front, lo, hi);
      assert EntriesOn(front, line) + [] == EntriesOn(front, line);
    }
  }

  lemma {:induction false} EntriesOnMembers(h: seq<Entry>, line: nat)
    requires EntriesFit(h)
    ensures forall i :: 0 <= i < |EntriesOn(h, line)| ==>
              EntriesOn(h, line)[i].w.Fits() && LineOf(EntriesOn(h, line)[i].w.addr) == line
  {
    if h != [] {
      EntriesOnMembers(h[..|h| - 1], line);
    }
  }

  /** A flush leaves the other lines alone. */
  lemma RemarkOtherLine(h: seq<Entry>, line: nat, ev: Event)
    requires ev.Flush? && LineOf(ev.addr) != line
    requires forall i :: 0 <= i < |h| ==> h[i].w.Fits() && LineOf(h[i].w.addr) == line
    ensures Remark(h, ev) == h
  {
    forall i | 0 <= i < |h| ensures !FlushOf(ev, h[i].w) {
      InFlushIsSameLine(ev.addr, h[i].w);
    }
  }

  /** Writing each line separately gives the same image as writing the whole list in program order. */
  lemma PutLinesIsPutAll(img: Image, lines: map<nat, seq<Entry>>, ops: seq<Entry>, lo: nat)
    requires EntriesFit(ops)
    requires forall line :: At(lines, line) == EntriesOn(ops, line)
    ensures PutLines(img, lines, lo) == PutAll(img, Ranked(ops, lo, 2))
  {
    forall a | a in img ensures PutLines(img, lines, lo)[a] == PutAll(img, Ranked(ops, lo, 2))[a] {
      PutLineByte(img[a], ops, lo, a);
    }
  }

  lemma PutLineByte(b: Byte, ops: seq<Entry>, lo: nat, a: nat)
    requires EntriesFit(ops)
    ensures ByteAfter(b, Ranked(EntriesOn(ops, LineOf(a)), lo, 2), a) == ByteAfter(b, Ranked(ops, lo, 2), a)
  {
    KeepFits(ops, lo, 2);
    EntriesOnKeep(ops, LineOf(a), lo, 2);
    WritesOnLine(Keep(ops, lo, 2), LineOf(a));
    ByteDependsOnOwnLine(b, Ranked(ops, lo, 2), a);
  }

  /** One cacheline under one event. */
  function LineNext(before: seq<Entry>, line: nat, ev: Event): seq<Entry> {
    match ev
    case Store(w) => if LineOf(w.addr) == line then before + [Entry(w, Clear)] else before
    case Flush(a) => if LineOf(a) == line then Remark(before, ev) else before
    case Fence => Keep(before, 0, 1)
    case WriteBack => []
    case Other => before
  }

  lemma LineStep(h: seq<Entry>, line: nat, ev: Event)
    requires EntriesFit(h)
    ensures EntriesOn(Keep(Extend(h, ev), 0, 2), line) == LineNext(EntriesOn(Keep(h, 0, 2), line), line, ev)
  {
    var ops := Keep(h, 0, 2);
    ExtendRanked(h, ev);
    match ev
    case Store(w) =>
      RemarkIdle(ops, ev);
      EntriesOnConcat(ops, Entry(w, Clear), line);
    case Flush(a) =>
      EntriesOnRemark(ops, line, ev);
      if LineOf(a) != line {
        KeepFits(h, 0, 2);
        EntriesOnMembers(ops, line);
        RemarkOtherLine(EntriesOn(ops, line), line, ev);
      }
    case Fence =>
      KeepKeep(h, 0, 1);
      KeepFits(h, 0, 1);
      RemarkIdle(Keep(h, 0, 1), ev);
      EntriesOnKeep(ops, line, 0, 1);
    case WriteBack => KeepNone(h);
    case Other => RemarkIdle(ops, ev);
  }

  lemma LinedStepTracks(init: Image, h: seq<Entry>, s: Lined, ev: Event)
    requires EntriesFit(h) && LineOrdered(h) && LinedTracks(init, h, s)
    ensures LinedTracks(init, Extend(h, ev), LinedStep(s, ev))
  {
    var h' := Extend(h, ev);
    forall line ensures At(LinedStep(s, ev).lines, line) == EntriesOn(Keep(h', 0, 2), line) {
      LineStep(h, line, ev);
      assert At(s.lines, line) == EntriesOn(Keep(h, 0, 2), line);
    }
    ExtendRanked(h, ev);
    KeepFits(h, 0, 2);
    if ev.Fence? || ev.WriteBack? {
      PutLinesIsPutAll(s.img, s.lines, Keep(h, 0, 2), Threshold(ev));
      KeepKeep(h, Threshold(ev), 2);
      PutSplit(init, h, Threshold(ev), 2);
    }
  }

  lemma {:induction false} WitcherTracks(init: Image, evs: seq<Event>)
    requires Fitting(evs)
    ensures LinedTracks(init, History(evs), LinedRun(init, evs))
  {
    if evs != [] {
      var front := evs[..|evs| - 1];
      assert Fitting(front) by { assert forall i :: 0 <= i < |front| ==> front[i] == evs[i]; }
      WitcherTracks(init, front);
      HistoryLineOrdered(front);
      LinedStepTracks(init, History(front), LinedRun(init, front), evs[|evs| - 1]);
    } else {
      forall line ensures At(map[], line) == EntriesOn(Keep([], 0, 2), line) {}
    }
  }

  /** WitcherCache and ReplayCache hold the same image and, line by line, the same pending stores. */
  lemma CachesAgree(init: Image, evs: seq<Event>)
    requires Fitting(evs)
    ensures LinedRun(init, evs).img == FlatRun(init, evs).img
    ensures forall line :: At(LinedRun(init, evs).lines, line) == EntriesOn(FlatRun(init, evs).ops, line)
  {
    ReplayTracks(init, evs);
    WitcherTracks(init, evs);
  }

  // ---- Writing back one store at a time ----

  lemma PutNextFlushing(img: Image, es: seq<Entry>, i: nat)
    requires i < |es|
    ensures var sofar := PutAll(img, Ranked(es[..i], 1, 2));
            PutAll(img, Ranked(es[..i + 1], 1, 2)) == if es[i].mark.Flushing? then PutAll(sofar, [es[i].w]) else sofar
  {
    assert es[..i + 1][..i] == es[..i];
    RankedLast(es[..i + 1], 1, 2);
    if es[i].mark.Flushing? {
      PutAllConcat(img, Ranked(es[..i], 1, 2), [es[i].w]);
    } else {
      assert Ranked(es[..i + 1], 1, 2) == Ranked(es[..i], 1, 2);
    }
  }

  lemma {:induction false} KeepMembers(es: seq<Entry>, lo: nat, hi: nat)
    ensures forall e :: e in Keep(es, lo, hi) ==> e in es && lo <= e.mark.Rank() < hi
  {
    if es != [] {
      KeepMembers(es[..|es| - 1], lo, hi);
    }
  }

  // ---- What reaches the image, whatever the stores are ----

  /** The stores in the order in which the program-order cache writes them. */
  function Written(evs: seq<Event>): seq<Write> {
    if evs == [] then []
    else
      var front, ev := evs[..|evs| - 1], evs[|evs| - 1];
      Written(front) + Ranked(History(front), Threshold(ev), 2)
  }

  lemma {:induction false} KeepTwo(h: seq<Entry>)
    ensures Keep(h, 2, 2) == []
  {
    if h != [] {
      KeepTwo(h[..|h| - 1]);
    }
  }

  lemma FlatStepWrites(h: seq<Entry>, img: Image, ev: Event)
    ensures FlatStep(Flat(img, Keep(h, 0, 2)), ev).img == PutAll(img, Ranked(h, Threshold(ev), 2))
  {
    match ev
    case Fence => KeepKeep(h, 1, 2);
    case WriteBack =>
    case _ =>
      KeepTwo(h);
      assert PutAll(img, []) == img;
  }

  /** The image is the stores written so far, and the list is the ones that are not durable. */
  lemma {:induction false} FlatRunWritten(init: Image, evs: seq<Event>)
    ensures FlatRun(init, evs).img == PutAll(init, Written(evs)) && FlatRun(init, evs).ops == Keep(History(evs), 0, 2)
  {
    if evs != [] {
      var front, ev := evs[..|evs| - 1], evs[|evs| - 1];
      var h := History(front);
      FlatRunWritten(init, front);
      PendingStep(h, FlatRun(init, front).img, ev);
      FlatStepWrites(h, FlatRun(init, front).img, ev);
      PutAllConcat(init, Written(front), Ranked(h, Threshold(ev), 2));
    }
  }

  lemma {:induction false} RankedAdds(h: seq<Entry>, lo: nat)
    requires lo <= 2
    ensures multiset(Ranked(h, lo, 3)) == multiset(Ranked(h, 2, 3)) + multiset(Ranked(h, lo, 2))
  {
    if h != [] {
      RankedAdds(h[..|h| - 1], lo);
      RankedLast(h, lo, 3);
      RankedLast(h, 2, 3);
      RankedLast(h, lo, 2);
    }
  }

  /** Exactly the durable stores are written, each once. */
  lemma {:induction false} WrittenAreDurable(evs: seq<Event>)
    ensures multiset(Written(evs)) == multiset(Ranked(History(evs), 2, 3))
  {
    if evs != [] {
      var front, ev := evs[..|evs| - 1], evs[|evs| - 1];
      WrittenAreDurable(front);
      WrittenStep(History(front), Written(front), ev);
    }
  }

  lemma WrittenStep(h: seq<Entry>, ws: seq<Write>, ev: Event)
    requires multiset(ws) == multiset(Ranked(h, 2, 3))
    ensures multiset(ws + Ranked(h, Threshold(ev), 2)) == multiset(Ranked(Extend(h, ev), 2, 3))
  {
    MultisetConcat(ws, Ranked(h, Threshold(ev), 2));
    RankedAdds(h, Threshold(ev));
    ExtendRanked(h, ev);
  }

  lemma MultisetConcat(xs: seq<Write>, ys: seq<Write>)
    ensures multiset(xs + ys) == multiset(xs) + multiset(ys)
  {
  }

  lemma NextWritten(front: seq<Event>, ev: Event)
    ensures History(front + [ev]) == Extend(History(front), ev)
    ensures Written(front + [ev]) == Written(front) + Ranked(History(front), Threshold(ev), 2)
  {
    assert (front + [ev])[..|front|] == front;
  }

  lemma RankedPair(e: Entry, f: Entry, lo: nat, hi: nat)
    ensures Ranked([e, f], lo, hi) ==
            (if lo <= e.mark.Rank() < hi then [e.w] else []) + (if lo <= f.mark.Rank() < hi then [f.w] else [])
  {
    assert [e, f][..1] == [e];
    var none: seq<Entry> := [];
    assert [e][..0] == none && Keep([e], lo, hi) == none + (if lo <= e.mark.Rank() < hi then [e] else none);
    assert Keep([e, f], lo, hi) == Keep([e], lo, hi) + (if lo <= f.mark.Rank() < hi then [f] else none);
  }

  /** A trace of two stores: their marks, and what was written. */
  ghost predicate PairAt(evs: seq<Event>, e: Entry, f: Entry, ws: seq<Write>) {
    History(evs) == [e, f] && Written(evs) == ws
  }

  /** A flush at `a` and a fence, when nothing waits for a fence. */
  lemma PairFlushed(evs: seq<Event>, e: Entry, f: Entry, ws: seq<Write>, a: nat)
    requires PairAt(evs, e, f, ws) && !e.mark.Flushing? && !f.mark.Flushing?
    ensures var takesE, takesF := e.mark.Clear? && FlushOf(Flush(a), e.w), f.mark.Clear? && FlushOf(Flush(a), f.w);
            PairAt(evs + [Flush(a)] + [Fence], if takesE then Entry(e.w, Fenced) else e,
                   if takesF then Entry(f.w, Fenced) else f,
                   ws + (if takesE then [e.w] else []) + (if takesF then [f.w] else []))
  {
    var e', f' := e.(mark := NextMark(e, Flush(a))), f.(mark := NextMark(f, Flush(a)));
    NextWritten(evs, Flush(a));
    RankedPair(e, f, 2, 2);
    assert PairAt(evs + [Flush(a)], e', f', ws);
    NextWritten(evs + [Flush(a)], Fence);
    RankedPair(e', f', 1, 2);
  }

  lemma NextStored(front: seq<Event>, w: Write)
    ensures History(front + [Store(w)]) == History(front) + [Entry(w, Clear)]
    ensures Written(front + [Store(w)]) == Written(front)
  {
    NextWritten(front, Store(w));
    RemarkIdle(History(front), Store(w));
    KeepTwo(History(front));
  }

  /** Two stores, then a flush at `a` and a fence, then a flush at `b` and a fence. */
  function TwoFlushes(x: Write, y: Write, a: nat, b: nat): seq<Event> {
    TwoStores(x, y) + [Flush(a)] + [Fence] + [Flush(b)] + [Fence]
  }

  function TwoStores(x: Write, y: Write): seq<Event> { OneStore(x) + [Store(y)] }

  function OneStore(x: Write): seq<Event> { [Store(x)] }

  lemma OneStored(x: Write)
    ensures History(OneStore(x)) == [Entry(x, Clear)] && Written(OneStore(x)) == []
  {
    var none: seq<Event> := [];
    assert OneStore(x) == none + [Store(x)];
    NextStored(none, x);
  }

  lemma PairStored(x: Write, y: Write)
    ensures PairAt(TwoStores(x, y), Entry(x, Clear), Entry(y, Clear), [])
  {
    OneStored(x);
    NextStored(OneStore(x), y);
  }

  /** When the first flush covers only the later store, both become durable, and the later one is written first. */
  lemma WrittenOutOfOrder(x: Write, y: Write, a: nat, b: nat)
    requires !FlushOf(Flush(a), x) && FlushOf(Flush(a), y) && FlushOf(Flush(b), x)
    ensures Written(TwoFlushes(x, y, a, b)) == [y, x]
    ensures Ranked(History(TwoFlushes(x, y, a, b)), 2, 3) == [x, y]
  {
    PairFlushedTwice(x, y, a, b);
    RankedPair(Entry(x, Fenced), Entry(y, Fenced), 2, 3);
  }

  lemma PairFlushedTwice(x: Write, y: Write, a: nat, b: nat)
    requires !FlushOf(Flush(a), x) && FlushOf(Flush(a), y) && FlushOf(Flush(b), x)
    ensures PairAt(TwoFlushes(x, y, a, b), Entry(x, Fenced), Entry(y, Fenced), [y, x])
  {
    PairStored(x, y);
    PairFlushed(TwoStores(x, y), Entry(x, Clear), Entry(y, Clear), [], a);
    assert [] + [] + [y] == [y];
    PairFlushed(TwoStores(x, y) + [Flush(a)] + [Fence], Entry(x, Clear), Entry(y, Fenced), [y], b);
    assert [y] + [x] + [] == [y, x];
  }

  /** The input that shows it: a store on the second line, then one across the border. The image of the program-order
      cache is not the durable stores in program order. */
  lemma BorderOutOfOrder(init: Image)
    requires 64 in init
    ensures var evs := TwoFlushes(Write(64, [1], 0), Write(60, [2, 2, 2, 2, 2, 2, 2, 2], 1), 0, 64);
            var img := FlatRun(init, evs).img;
            64 in img && img[64] == 1 && PutAll(init, Ranked(History(evs), 2, 3))[64] == 2
  {
    var x, y := Write(64, [1], 0), Write(60, [2, 2, 2, 2, 2, 2, 2, 2], 1);
    FlatRunWritten(init, TwoFlushes(x, y, 0, 64));
    WrittenOutOfOrder(x, y, 0, 64);
    assert [x, y][..1] == [x] && [y, x][..1] == [y];
    assert y.Covers(64) && x.Covers(64);
  }

  /** A store is still pending only if it is not durable. */
  lemma PendingNotDurable(init: Image, evs: seq<Event>, e: Entry) returns (i: nat)
    requires e in FlatRun(init, evs).ops
    ensures i < |evs| && evs[i] == Store(e.w) && !Durable(evs, i)
  {
    FlatRunWritten(init, evs);
    KeepMembers(History(evs), 0, 2);
    var k :| 0 <= k < |History(evs)| && History(evs)[k] == e;
    HistoryLength(evs);
    HistoryMarks(evs, k);
    i := StorePositions(evs)[k];
  }
}
