/**
 * Which images a crash may leave behind, and the two images the validator builds before a store: everything
 * issued so far (case 0), and only what must be persistent plus the line of the crash store (case 1).
 */
module CrashSpec {
  import opened Memory
  import opened Persistence
  import opened CacheSpec

  /** The stores of a trace in program order. */
  function StoresOf(evs: seq<Event>): seq<Write> {
    if evs == [] then []
    else StoresOf(evs[..|evs| - 1]) + (if evs[|evs| - 1].Store? then [evs[|evs| - 1].w] else [])
  }

  /** The positions of the stores to one cacheline. */
  function LinePositions(evs: seq<Event>, line: nat): (ps: seq<nat>)
    ensures forall k :: 0 <= k < |ps| ==> ps[k] < |evs| && evs[ps[k]].Store?
  {
    if evs == [] then []
    else
      var n := |evs| - 1;
      var ps := LinePositions(evs[..n], line);
      if evs[n].Store? && LineOf(evs[n].w.addr) == line then ps + [n] else ps
  }

  /** A cut says how many stores of each line have reached memory. It is legal when no line has lost a
      durable store: per line, a prefix in program order that reaches every flushed-and-fenced store. */
  ghost predicate LegalCut(evs: seq<Event>, cut: nat -> nat) {
    forall line ::
      && cut(line) <= |LinePositions(evs, line)|
      && forall k :: cut(line) <= k < |LinePositions(evs, line)| ==> !Durable(evs, LinePositions(evs, line)[k])
  }

  function PrefixOn(evs: seq<Event>, line: nat, n: nat): seq<Write>
    requires n <= |LinePositions(evs, line)|
  {
    seq(n, k requires 0 <= k < n => evs[LinePositions(evs, line)[k]].w)
  }

  /** `img` is what memory holds when exactly the stores below the cut have reached it. */
  ghost predicate IsCutImage(init: Image, evs: seq<Event>, cut: nat -> nat, img: Image)
    requires LegalCut(evs, cut)
  {
    && img.Keys == init.Keys
    && forall a :: a in init ==> img[a] == ByteAfter(init[a], PrefixOn(evs, LineOf(a), cut(LineOf(a))), a)
  }

  // ---- One line of the history ----

  function LineHistory(evs: seq<Event>, line: nat): seq<Entry> { EntriesOn(History(evs), line) }

  lemma {:induction false} LineHistoryMarks(evs: seq<Event>, line: nat)
    ensures |LineHistory(evs, line)| == |LinePositions(evs, line)|
    ensures forall k :: 0 <= k < |LineHistory(evs, line)| ==>
              var i := LinePositions(evs, line)[k];
              LineHistory(evs, line)[k] == Entry(evs[i].w, MarkAt(evs, i))
  {
    if evs != [] {
      var n := |evs| - 1;
      var front, ev := evs[..n], evs[n];
      var h, ps := History(front), LinePositions(front, line);
      LineHistoryMarks(front, line);
      EntriesOnRemark(h, line, ev);
      if ev.Store? {
        EntriesOnConcat(Remark(h, ev), Entry(ev.w, Clear), line);
      } else {
        assert History(evs) == Remark(h, ev);
      }
      forall k | 0 <= k < |ps|
        ensures Remark(EntriesOn(h, line), ev)[k] == Entry(evs[ps[k]].w, MarkAt(evs, ps[k]))
      {
        MarkStep(evs, ps[k]);
      }
    }
  }

  lemma {:induction false} StoresOfHistory(evs: seq<Event>)
    ensures Writes(History(evs)) == StoresOf(evs)
  {
    if evs != [] {
      StoresOfHistory(evs[..|evs| - 1]);
    }
  }

  ghost predicate RanksFall(es: seq<Entry>) {
    forall i, j :: 0 <= i < j < |es| ==> es[i].mark.Rank() >= es[j].mark.Rank()
  }

  /** The ranks reach `mid` in the first n entries and in no others. */
  ghost predicate CutAt(es: seq<Entry>, mid: nat, n: nat) {
    n <= |es| && forall k :: 0 <= k < |es| ==> (es[k].mark.Rank() >= mid <==> k < n)
  }

  lemma {:induction false} KeepCut(es: seq<Entry>, mid: nat, n: nat)
    requires mid <= 2 && CutAt(es, mid, n)
    ensures Keep(es, mid, 3) == es[..n]
  {
    if es != [] {
      var front := es[..|es| - 1];
      KeepCut(front, mid, if n == |es| then n - 1 else n);
    }
  }

  lemma FindCut(es: seq<Entry>, mid: nat) returns (n: nat)
    requires RanksFall(es)
    ensures CutAt(es, mid, n)
  {
    n := 0;
    while n < |es| && es[n].mark.Rank() >= mid
      invariant n <= |es| && forall k :: 0 <= k < n ==> es[k].mark.Rank() >= mid
    {
      n := n + 1;
    }
  }

  /** When ranks never grow along a list, selecting by rank takes a prefix. */
  lemma KeepIsPrefix(es: seq<Entry>, mid: nat)
    requires mid <= 2 && RanksFall(es)
    ensures CutAt(es, mid, |Keep(es, mid, 3)|) && Keep(es, mid, 3) == es[..|Keep(es, mid, 3)|]
  {
    var n := FindCut(es, mid);
    KeepCut(es, mid, n);
  }

  lemma {:induction false} EntriesOnIn(h: seq<Entry>, line: nat, e: Entry)
    requires e in EntriesOn(h, line)
    ensures e in h && LineOf(e.w.addr) == line
  {
    var front := h[..|h| - 1];
    if e in EntriesOn(front, line) {
      EntriesOnIn(front, line, e);
    }
  }

  lemma RanksFallNext(es: seq<Entry>, e: Entry)
    requires RanksFall(es) && forall x <- es :: x.mark.Rank() >= e.mark.Rank()
    ensures RanksFall(es + [e])
  {
  }

  lemma {:induction false} LineHistoryOrdered(h: seq<Entry>, line: nat)
    requires LineOrdered(h)
    ensures RanksFall(EntriesOn(h, line))
  {
    if h != [] {
      var front, last := h[..|h| - 1], h[|h| - 1];
      LineHistoryOrdered(front, line);
      if LineOf(last.w.addr) == line {
        forall e <- EntriesOn(front, line) ensures e.mark.Rank() >= last.mark.Rank() {
          EntriesOnIn(front, line, e);
          var i :| 0 <= i < |front| && front[i] == e;
          assert h[i] == e;
        }
        RanksFallNext(EntriesOn(front, line), last);
      }
    }
  }

  /** How many stores of a line are durable. */
  function DurableCount(evs: seq<Event>, line: nat): nat { |Keep(LineHistory(evs, line), 2, 3)| }

  /** The durable stores of a line are its first ones. */
  lemma DurablePrefix(evs: seq<Event>, line: nat)
    requires Fitting(evs)
    ensures DurableCount(evs, line) <= |LinePositions(evs, line)|
    ensures forall k :: 0 <= k < |LinePositions(evs, line)| ==>
              (Durable(evs, LinePositions(evs, line)[k]) <==> k < DurableCount(evs, line))
  {
    HistoryLineOrdered(evs);
    LineHistoryMarks(evs, line);
    LineHistoryOrdered(History(evs), line);
    KeepIsPrefix(LineHistory(evs, line), 2);
  }

  lemma DurableStoresOnLine(evs: seq<Event>, line: nat)
    requires Fitting(evs)
    ensures DurableCount(evs, line) <= |LinePositions(evs, line)|
    ensures OnLine(Ranked(History(evs), 2, 3), line) == PrefixOn(evs, line, DurableCount(evs, line))
  {
    var h := History(evs);
    DurablePrefix(evs, line);
    EntriesOnKeep(h, line, 2, 3);
    WritesOnLine(Keep(h, 2, 3), line);
    var kept := Keep(LineHistory(evs, line), 2, 3);
    forall k | 0 <= k < |kept| ensures kept[k].w == evs[LinePositions(evs, line)[k]].w {
      HistoryLineOrdered(evs);
      LineHistoryOrdered(h, line);
      KeepIsPrefix(LineHistory(evs, line), 2);
      LineHistoryMarks(evs, line);
    }
  }

  // ---- The image kept by the cache, and the two crash images ----

  /** Pending stores written line by line, in any order of the lines, on top of the image kept by the cache:
      plain sequential memory. */
  lemma PendingCompletesImage(init: Image, evs: seq<Event>, s: Lined)
    requires Fitting(evs) && LinedTracks(init, History(evs), s)
    ensures PutLines(s.img, s.lines, 0) == PutAll(init, StoresOf(evs))
  {
    var h := History(evs);
    HistoryLineOrdered(evs);
    KeepFits(h, 0, 2);
    PutLinesIsPutAll(s.img, s.lines, Keep(h, 0, 2), 0);
    KeepKeep(h, 0, 2);
    PutSplit(init, h, 0, 2);
    KeepAll(h);
    StoresOfHistory(evs);
  }

  function FullCut(evs: seq<Event>): nat -> nat { line => |LinePositions(evs, line)| }

  function DurableCut(evs: seq<Event>): nat -> nat { line => DurableCount(evs, line) }

  /** Case 1: the line of the crash store in full, every other line only as far as it must. */
  function CrashCut(evs: seq<Event>, w: Write): nat -> nat {
    line => if line == LineOf(w.addr) then |LinePositions(evs, line)| + 1 else DurableCount(evs, line)
  }

  lemma KeptByte(init: Image, evs: seq<Event>, s: Lined, a: nat)
    requires Fitting(evs) && LinedTracks(init, History(evs), s) && a in init
    ensures DurableCount(evs, LineOf(a)) <= |LinePositions(evs, LineOf(a))|
    ensures s.img[a] == ByteAfter(init[a], PrefixOn(evs, LineOf(a), DurableCount(evs, LineOf(a))), a)
  {
    HistoryLineOrdered(evs);
    KeepFits(History(evs), 2, 3);
    DurableStoresOnLine(evs, LineOf(a));
    ByteDependsOnOwnLine(init[a], Ranked(History(evs), 2, 3), a);
  }

  /** The image kept by the cache is the one a crash leaves when nothing but the durable stores survived. */
  lemma KeptImageIsDurableCut(init: Image, evs: seq<Event>, s: Lined)
    requires Fitting(evs) && LinedTracks(init, History(evs), s)
    ensures LegalCut(evs, DurableCut(evs))
    ensures IsCutImage(init, evs, DurableCut(evs), s.img)
  {
    forall line
      ensures DurableCount(evs, line) <= |LinePositions(evs, line)|
      ensures forall k :: DurableCount(evs, line) <= k < |LinePositions(evs, line)| ==>
                !Durable(evs, LinePositions(evs, line)[k])
    {
      DurablePrefix(evs, line);
    }
    forall a | a in init
      ensures s.img[a] == ByteAfter(init[a], PrefixOn(evs, LineOf(a), DurableCount(evs, LineOf(a))), a)
    {
      KeptByte(init, evs, s, a);
    }
  }

  lemma OnLineStores(evs: seq<Event>, line: nat)
    ensures OnLine(StoresOf(evs), line) == PrefixOn(evs, line, |LinePositions(evs, line)|)
  {
    StoresOfHistory(evs);
    LineHistoryMarks(evs, line);
    WritesOnLine(History(evs), line);
  }

  lemma FittingStores(evs: seq<Event>)
    requires Fitting(evs)
    ensures AllFit(StoresOf(evs))
  {
    HistoryLineOrdered(evs);
    StoresOfHistory(evs);
    forall i | 0 <= i < |StoresOf(evs)| ensures StoresOf(evs)[i].Fits() {
      assert StoresOf(evs)[i] == History(evs)[i].w;
    }
  }

  lemma VolatileByte(init: Image, evs: seq<Event>, a: nat)
    requires Fitting(evs) && a in init
    ensures PutAll(init, StoresOf(evs))[a]
         == ByteAfter(init[a], PrefixOn(evs, LineOf(a), |LinePositions(evs, LineOf(a))|), a)
  {
    FittingStores(evs);
    ByteDependsOnOwnLine(init[a], StoresOf(evs), a);
    OnLineStores(evs, LineOf(a));
  }

  /** Case 0 equals volatile memory just before the crash store, and is a legal crash state. */
  lemma CaseZeroLegal(init: Image, evs: seq<Event>)
    requires Fitting(evs)
    ensures LegalCut(evs, FullCut(evs))
    ensures IsCutImage(init, evs, FullCut(evs), PutAll(init, StoresOf(evs)))
  {
    forall a | a in init
      ensures PutAll(init, StoresOf(evs))[a]
           == ByteAfter(init[a], PrefixOn(evs, LineOf(a), |LinePositions(evs, LineOf(a))|), a)
    {
      VolatileByte(init, evs, a);
    }
  }

  /** Issuing a store makes nothing durable. */
  lemma StoreKeepsDurable(evs: seq<Event>, w: Write, i: nat)
    requires i < |evs| && evs[i].Store?
    ensures Durable(evs + [Store(w)], i) <==> Durable(evs, i)
  {
    assert (evs + [Store(w)])[..|evs|] == evs;
    MarkStep(evs + [Store(w)], i);
  }

  lemma StoreLinePositions(evs: seq<Event>, w: Write, line: nat)
    ensures LinePositions(evs + [Store(w)], line)
         == LinePositions(evs, line) + (if LineOf(w.addr) == line then [|evs|] else [])
  {
    assert (evs + [Store(w)])[..|evs|] == evs;
  }

  lemma CrashCutLegal(evs: seq<Event>, w: Write)
    requires Fitting(evs)
    ensures LegalCut(evs + [Store(w)], CrashCut(evs, w))
  {
    var evs' := evs + [Store(w)];
    forall line
      ensures CrashCut(evs, w)(line) <= |LinePositions(evs', line)|
      ensures forall k :: CrashCut(evs, w)(line) <= k < |LinePositions(evs', line)| ==>
                !Durable(evs', LinePositions(evs', line)[k])
    {
      StoreLinePositions(evs, w, line);
      DurablePrefix(evs, line);
      forall k | CrashCut(evs, w)(line) <= k < |LinePositions(evs', line)|
        ensures !Durable(evs', LinePositions(evs', line)[k])
      {
        StoreKeepsDurable(evs, w, LinePositions(evs, line)[k]);
      }
    }
  }

  /** Case 1 is the least legal crash state that contains the crash store. */
  lemma CrashCutLeast(evs: seq<Event>, w: Write, cut: nat -> nat)
    requires Fitting(evs) && LegalCut(evs + [Store(w)], cut)
    requires cut(LineOf(w.addr)) == |LinePositions(evs + [Store(w)], LineOf(w.addr))|
    ensures forall line :: CrashCut(evs, w)(line) <= cut(line)
  {
    forall line ensures CrashCut(evs, w)(line) <= cut(line) {
      StoreLinePositions(evs, w, line);
      if line != LineOf(w.addr) && cut(line) < DurableCount(evs, line) {
        DurablePrefix(evs, line);
        StoreKeepsDurable(evs, w, LinePositions(evs, line)[cut(line)]);
        assert false;
      }
    }
  }

  /** What case 1 writes on top of the kept image: the pending stores of the crash store's line, then itself. */
  function CaseOne(s: Lined, w: Write): Image {
    PutAll(s.img, Writes(At(s.lines, LineOf(w.addr))) + [w])
  }

  lemma PendingOnLine(h: seq<Entry>, s: Lined, init: Image, line: nat)
    requires EntriesFit(h) && LinedTracks(init, h, s)
    ensures Ranked(At(s.lines, line), 0, 2) == Writes(At(s.lines, line))
    ensures AllFit(Writes(At(s.lines, line))) && OnLine(Writes(At(s.lines, line)), line) == Writes(At(s.lines, line))
    ensures forall other :: other != line ==> OnLine(Writes(At(s.lines, line)), other) == []
  {
    var ops := Keep(h, 0, 2);
    KeepFits(h, 0, 2);
    EntriesOnKeep(ops, line, 0, 2);
    KeepKeep(h, 0, 2);
    EntriesOnMembers(ops, line);
    SingleLine(Writes(At(s.lines, line)), line);
  }

  lemma {:induction false} SingleLine(ws: seq<Write>, line: nat)
    requires forall i :: 0 <= i < |ws| ==> LineOf(ws[i].addr) == line
    ensures OnLine(ws, line) == ws
    ensures forall other :: other != line ==> OnLine(ws, other) == []
  {
    if ws != [] {
      SingleLine(ws[..|ws| - 1], line);
    }
  }

  /** A byte on the crash store's line: all stores issued to that line, the crash store included. */
  lemma CaseOneOwnLine(init: Image, evs: seq<Event>, s: Lined, w: Write, a: nat)
    requires Fitting(evs) && w.Fits() && LinedTracks(init, History(evs), s)
    requires a in init && LineOf(a) == LineOf(w.addr)
    ensures CaseOne(s, w)[a] == PutAll(init, StoresOf(evs) + [w])[a]
  {
    HistoryLineOrdered(evs);
    PendingOnLine(History(evs), s, init, LineOf(w.addr));
    ByteAfterConcat(s.img[a], Writes(At(s.lines, LineOf(w.addr))), [w], a);
    PendingCompletesImage(init, evs, s);
    assert PutLines(s.img, s.lines, 0)[a] == PutAll(init, StoresOf(evs))[a];
    ByteAfterConcat(init[a], StoresOf(evs), [w], a);
  }

  /** A byte on any other line is as the cache keeps it. */
  lemma CaseOneOtherLine(init: Image, evs: seq<Event>, s: Lined, w: Write, a: nat)
    requires Fitting(evs) && w.Fits() && LinedTracks(init, History(evs), s)
    requires a in init && LineOf(a) != LineOf(w.addr)
    ensures CaseOne(s, w)[a] == s.img[a]
  {
    var ws := Writes(At(s.lines, LineOf(w.addr)));
    HistoryLineOrdered(evs);
    PendingOnLine(History(evs), s, init, LineOf(w.addr));
    OnLineConcat(ws, [w], LineOf(a));
    ByteDependsOnOwnLine(s.img[a], ws + [w], a);
  }

  /** The same two cases against the stores below the cut. */
  lemma CaseOneByte(init: Image, evs: seq<Event>, s: Lined, w: Write, a: nat)
    requires Fitting(evs) && w.Fits() && LinedTracks(init, History(evs), s) && a in init
    requires CrashCut(evs, w)(LineOf(a)) <= |LinePositions(evs + [Store(w)], LineOf(a))|
    ensures CaseOne(s, w)[a]
         == ByteAfter(init[a], PrefixOn(evs + [Store(w)], LineOf(a), CrashCut(evs, w)(LineOf(a))), a)
  {
    if LineOf(a) == LineOf(w.addr) {
      var evs' := evs + [Store(w)];
      CaseOneOwnLine(init, evs, s, w, a);
      assert StoresOf(evs') == StoresOf(evs) + [w] by { assert evs'[..|evs|] == evs; }
      VolatileByte(init, evs', a) by { assert Fitting(evs'); }
    } else {
      CaseOneOtherLine(init, evs, s, w, a);
      KeptByte(init, evs, s, a);
      OtherLinePrefix(evs, w, LineOf(a));
    }
  }

  lemma OtherLinePrefix(evs: seq<Event>, w: Write, line: nat)
    requires line != LineOf(w.addr) && DurableCount(evs, line) <= |LinePositions(evs, line)|
    ensures DurableCount(evs, line) <= |LinePositions(evs + [Store(w)], line)|
    ensures PrefixOn(evs + [Store(w)], line, DurableCount(evs, line)) == PrefixOn(evs, line, DurableCount(evs, line))
  {
    StoreLinePositions(evs, w, line);
  }

  lemma CaseOneLegal(init: Image, evs: seq<Event>, s: Lined, w: Write)
    requires Fitting(evs) && w.Fits() && LinedTracks(init, History(evs), s)
    ensures LegalCut(evs + [Store(w)], CrashCut(evs, w))
    ensures IsCutImage(init, evs + [Store(w)], CrashCut(evs, w), CaseOne(s, w))
  {
    CrashCutLegal(evs, w);
    forall a | a in init
      ensures CaseOne(s, w)[a]
           == ByteAfter(init[a], PrefixOn(evs + [Store(w)], LineOf(a), CrashCut(evs, w)(LineOf(a))), a)
    {
      CaseOneByte(init, evs, s, w, a);
    }
  }

  // ---- The two crash images by the positions of their stores ----

  /** All stores of the trace. */
  lemma AllStoresAt(evs: seq<Event>, keep: set<nat>)
    requires forall i :: 0 <= i < |evs| && evs[i].Store? ==> i in keep
    ensures StoresOf(evs) == StoresAt(evs, keep, 0, |evs|)
  {
    RankedAt(evs, keep, 0, 3);
    KeepAll(History(evs));
    StoresOfHistory(evs);
  }

  /** The stores of case 1: those on the line of the crash store, and on other lines the durable ones. */
  ghost predicate Survives(evs: seq<Event>, w: Write, i: nat) {
    i < |evs| && evs[i].Store? && (LineOf(evs[i].w.addr) == LineOf(w.addr) || Durable(evs, i))
  }

  ghost predicate Surviving(evs: seq<Event>, w: Write, keep: set<nat>) {
    forall i :: 0 <= i < |evs| ==> (i in keep <==> Survives(evs, w, i))
  }

  ghost function Survivors(evs: seq<Event>, w: Write): set<nat> { set i | 0 <= i < |evs| && Survives(evs, w, i) }

  /** Case 1 is sequential memory over exactly those stores and the crash store. */
  lemma CaseOneStores(init: Image, evs: seq<Event>, s: Lined, w: Write)
    requires Fitting(evs) && w.Fits() && LinedTracks(init, History(evs), s)
    ensures CaseOne(s, w) == PutAll(init, StoresAt(evs, Survivors(evs, w), 0, |evs|) + [w])
  {
    SurvivorsSurvive(evs, w);
    CaseOneKeeps(init, evs, s, w, Survivors(evs, w));
  }

  lemma SurvivorsSurvive(evs: seq<Event>, w: Write)
    ensures Surviving(evs, w, Survivors(evs, w))
  {
  }

  lemma CaseOneKeeps(init: Image, evs: seq<Event>, s: Lined, w: Write, keep: set<nat>)
    requires Fitting(evs) && w.Fits() && LinedTracks(init, History(evs), s) && Surviving(evs, w, keep)
    ensures CaseOne(s, w) == PutAll(init, StoresAt(evs, keep, 0, |evs|) + [w])
  {
    var ws := StoresAt(evs, keep, 0, |evs|) + [w];
    forall a | a in init ensures CaseOne(s, w)[a] == ByteAfter(init[a], ws, a) {
      CaseOneStoreByte(init, evs, s, w, keep, a);
    }
    SameBytes(init, CaseOne(s, w), ws);
  }

  lemma SameBytes(init: Image, img: Image, ws: seq<Write>)
    requires img.Keys == init.Keys && forall a :: a in init ==> img[a] == ByteAfter(init[a], ws, a)
    ensures img == PutAll(init, ws)
  {
  }

  lemma CaseOneStoreByte(init: Image, evs: seq<Event>, s: Lined, w: Write, keep: set<nat>, a: nat)
    requires Fitting(evs) && w.Fits() && LinedTracks(init, History(evs), s) && a in init
    requires Surviving(evs, w, keep)
    ensures CaseOne(s, w)[a] == ByteAfter(init[a], StoresAt(evs, keep, 0, |evs|) + [w], a)
  {
    var ws := StoresAt(evs, keep, 0, |evs|);
    StoresAtFit(evs, keep, |evs|);
    ByteAfterConcat(init[a], ws, [w], a);
    ByteDependsOnOwnLine(init[a], ws, a);
    if LineOf(a) == LineOf(w.addr) {
      CaseOneOwnLine(init, evs, s, w, a);
      OwnLineStores(init, evs, w, keep, a);
      ByteAfterConcat(init[a], StoresOf(evs), [w], a);
    } else {
      CaseOneOtherLine(init, evs, s, w, a);
      KeptStores(init, evs, s, w, keep, a);
      assert [w][..0] == [];
    }
  }

  /** On the line of the crash store all stores survive. */
  lemma OwnLineStores(init: Image, evs: seq<Event>, w: Write, keep: set<nat>, a: nat)
    requires Fitting(evs) && a in init && LineOf(a) == LineOf(w.addr) && Surviving(evs, w, keep)
    ensures ByteAfter(init[a], StoresOf(evs), a)
         == ByteAfter(init[a], OnLine(StoresAt(evs, keep, 0, |evs|), LineOf(a)), a)
  {
    var all := set i | 0 <= i < |evs| && evs[i].Store?;
    AllStoresAt(evs, all);
    StoresAtOnLine(evs, keep, all, LineOf(a), |evs|);
    FittingStores(evs);
    ByteDependsOnOwnLine(init[a], StoresOf(evs), a);
  }

  /** On the other lines the kept image has the durable stores. */
  lemma KeptStores(init: Image, evs: seq<Event>, s: Lined, w: Write, keep: set<nat>, a: nat)
    requires Fitting(evs) && w.Fits() && LinedTracks(init, History(evs), s) && a in init && LineOf(a) != LineOf(w.addr)
    requires Surviving(evs, w, keep)
    ensures s.img[a] == ByteAfter(init[a], OnLine(StoresAt(evs, keep, 0, |evs|), LineOf(a)), a)
    ensures !w.Covers(a)
  {
    var fenced := set i | 0 <= i < |evs| && HasRank(evs, i, 2, 3);
    assert Keeps(evs, fenced, 2, 3);
    FencedByte(init, evs, s, fenced, a);
    forall i | 0 <= i < |evs| && evs[i].Store? && LineOf(evs[i].w.addr) == LineOf(a)
      ensures i in keep <==> i in fenced
    {
      FencedSurvives(evs, w, i);
    }
    StoresAtOnLine(evs, keep, fenced, LineOf(a), |evs|);
  }

  lemma FencedByte(init: Image, evs: seq<Event>, s: Lined, fenced: set<nat>, a: nat)
    requires Fitting(evs) && LinedTracks(init, History(evs), s) && a in init && Keeps(evs, fenced, 2, 3)
    ensures s.img[a] == ByteAfter(init[a], OnLine(StoresAt(evs, fenced, 0, |evs|), LineOf(a)), a)
  {
    RankedAt(evs, fenced, 2, 3);
    StoresAtFit(evs, fenced, |evs|);
    ByteDependsOnOwnLine(init[a], StoresAt(evs, fenced, 0, |evs|), a);
  }

  lemma FencedSurvives(evs: seq<Event>, w: Write, i: nat)
    requires i < |evs| && evs[i].Store? && LineOf(evs[i].w.addr) != LineOf(w.addr)
    ensures HasRank(evs, i, 2, 3) <==> Survives(evs, w, i)
  {
  }
}
