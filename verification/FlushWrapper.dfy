/** recordFlushWrapper: a range flush becomes one flush record per cacheline. */
module FlushWrapper {
  import opened Memory
  import opened Persistence
  import opened CacheSpec
  import opened CrashSpec

  /** Persistent memory at `start`, mapped a second time at [dupStart, dupEnd). */
  datatype Mapping = Mapping(start: nat, dupStart: nat, dupEnd: nat) {
    function PmAddr(p: nat): nat { if dupStart <= p < dupEnd then p - dupStart + start else p }

    /** mmap returns whole pages. */
    predicate Aligned() {
      start % CACHELINE_BYTES == 0 && dupStart % CACHELINE_BYTES == 0 && dupEnd % CACHELINE_BYTES == 0
    }
  }

  /** The two mappings of one byte have one address in the records: that in the first mapping. */
  lemma BothMappingsOneAddress(m: Mapping, k: nat)
    requires m.dupStart + k < m.dupEnd && !(m.dupStart <= m.start + k < m.dupEnd)
    ensures m.PmAddr(m.dupStart + k) == m.PmAddr(m.start + k) == m.start + k
  {
  }

  /** The lines from `line` on that begin below `end`. */
  function LinesBelow(line: nat, end: nat): seq<nat>
    decreases end - line
  {
    if line >= end then [] else [line] + LinesBelow(line + CACHELINE_BYTES, end)
  }

  function Translated(m: Mapping, lines: seq<nat>): seq<nat> {
    seq(|lines|, i requires 0 <= i < |lines| => m.PmAddr(lines[i]))
  }

  /** The addresses of the Flush records written, in order. */
  method RecordFlushWrapper(m: Mapping, recording: bool, ptr: nat, length: nat) returns (flushes: seq<nat>)
    ensures flushes == if recording then Translated(m, LinesBelow(LineOf(ptr), ptr + length)) else []
  {
    flushes := [];
    ghost var done: seq<nat> := [];
    var line := LineOf(ptr);
    while line < ptr + length
      invariant done + LinesBelow(line, ptr + length) == LinesBelow(LineOf(ptr), ptr + length)
      invariant flushes == if recording then Translated(m, done) else []
      decreases ptr + length - line
    {
      if recording {
        flushes := flushes + [m.PmAddr(line)];
      }
      done := done + [line];
      line := line + CACHELINE_BYTES;
    }
    assert done + [] == done;
  }

  lemma {:induction false} LinesBelowMembers(line: nat, end: nat, x: nat)
    requires line % CACHELINE_BYTES == 0
    ensures x in LinesBelow(line, end) <==> line <= x < end && x % CACHELINE_BYTES == 0
    decreases end - line
  {
    if line < end {
      LinesBelowMembers(line + CACHELINE_BYTES, end, x);
    }
  }

  /** For a nonempty range the lines flushed are exactly the lines that meet it. */
  lemma FlushedLinesMeetRange(ptr: nat, length: nat, x: nat)
    requires length > 0 && x % CACHELINE_BYTES == 0
    ensures x in LinesBelow(LineOf(ptr), ptr + length) <==> x < ptr + length && ptr < x + CACHELINE_BYTES
  {
    LinesBelowMembers(LineOf(ptr), ptr + length, x);
  }

  /** An empty range still flushes the line it points into, unless it points at the start of one. */
  lemma EmptyRangeFlush(ptr: nat)
    ensures LinesBelow(LineOf(ptr), ptr) == if ptr % CACHELINE_BYTES == 0 then [] else [LineOf(ptr)]
  {
    assert LineOf(ptr) == ptr - ptr % CACHELINE_BYTES;
    assert LinesBelow(LineOf(ptr) + CACHELINE_BYTES, ptr) == [];
  }

  function FlushEvents(addrs: seq<nat>): seq<Event> {
    seq(|addrs|, i requires 0 <= i < |addrs| => Flush(addrs[i]))
  }

  /** A line lies on one side of the border of the second mapping. */
  lemma LineTranslated(m: Mapping, b: nat)
    requires m.Aligned()
    ensures m.PmAddr(LineOf(b)) == LineOf(m.PmAddr(b))
  {
  }

  /** Some flush record is for the line of each translated byte of the range. */
  lemma ByteIsFlushed(m: Mapping, ptr: nat, length: nat, b: nat) returns (k: nat)
    requires m.Aligned() && ptr <= b < ptr + length
    ensures var lines := LinesBelow(LineOf(ptr), ptr + length);
            k < |lines| && m.PmAddr(lines[k]) == LineOf(m.PmAddr(b))
  {
    var lines := LinesBelow(LineOf(ptr), ptr + length);
    FlushedLinesMeetRange(ptr, length, LineOf(b));
    k :| 0 <= k < |lines| && lines[k] == LineOf(b);
    LineTranslated(m, b);
  }

  /** A trace, the flushes of a range, and a fence. */
  function ThenFlushed(evs: seq<Event>, m: Mapping, ptr: nat, length: nat): seq<Event> {
    evs + FlushEvents(Translated(m, LinesBelow(LineOf(ptr), ptr + length))) + [Fence]
  }

  /** The store touches a translated byte of the range. */
  ghost predicate Touches(w: Write, m: Mapping, ptr: nat, length: nat) {
    exists b :: ptr <= b < ptr + length && w.Covers(m.PmAddr(b))
  }

  /** After flushing a range and a fence, every earlier store that touches the range is durable. */
  lemma RangeFlushDurable(m: Mapping, ptr: nat, length: nat, evs: seq<Event>, i: nat)
    requires m.Aligned() && i < |evs| && evs[i].Store? && Touches(evs[i].w, m, ptr, length)
    ensures ThenFlushed(evs, m, ptr, length)[i] == evs[i] && Durable(ThenFlushed(evs, m, ptr, length), i)
  {
    var fs := FlushEvents(Translated(m, LinesBelow(LineOf(ptr), ptr + length)));
    var all := evs + fs + [Fence];
    var b :| ptr <= b < ptr + length && evs[i].w.Covers(m.PmAddr(b));
    var k := ByteIsFlushed(m, ptr, length, b);
    assert all[|evs| + k] == fs[k] && all[i] == evs[i];
    FlushCovers(evs[i].w, m.PmAddr(b));
    DurableBy(all, i, |evs| + k, |all| - 1);
  }

  lemma FlushCovers(w: Write, a: nat)
    requires w.Covers(a)
    ensures FlushOf(Flush(LineOf(a)), w)
  {
  }

  lemma DurableBy(evs: seq<Event>, i: nat, f: nat, e: nat)
    requires i < f < e < |evs| && evs[i].Store? && FlushOf(evs[f], evs[i].w) && evs[e].Fence?
    ensures Durable(evs, i)
  {
  }

  lemma StoresBeforeFlushes(m: Mapping, ptr: nat, length: nat, evs: seq<Event>, i: nat)
    requires i < |ThenFlushed(evs, m, ptr, length)| && ThenFlushed(evs, m, ptr, length)[i].Store?
    ensures i < |evs| && ThenFlushed(evs, m, ptr, length)[i] == evs[i]
  {
  }

  /** In the program-order cache no store that touches the range is pending any more, whatever the stores are. */
  lemma RangeFlushPersists(init: Image, m: Mapping, ptr: nat, length: nat, evs: seq<Event>)
    requires m.Aligned()
    ensures forall e <- FlatRun(init, ThenFlushed(evs, m, ptr, length)).ops :: !Touches(e.w, m, ptr, length)
  {
    var all := ThenFlushed(evs, m, ptr, length);
    forall e <- FlatRun(init, all).ops ensures !Touches(e.w, m, ptr, length) {
      var i := PendingNotDurable(init, all, e);
      StoresBeforeFlushes(m, ptr, length, evs, i);
      if Touches(e.w, m, ptr, length) {
        RangeFlushDurable(m, ptr, length, evs, i);
      }
    }
  }

  /** If every store that covers a byte is durable, the byte is as if all stores were. */
  lemma {:induction false} DurableByte(b: Byte, h: seq<Entry>, a: nat)
    requires forall k :: 0 <= k < |h| && h[k].w.Covers(a) ==> h[k].mark.Fenced?
    ensures ByteAfter(b, Ranked(h, 2, 3), a) == ByteAfter(b, Writes(h), a)
  {
    if h != [] {
      var n := |h| - 1;
      DurableByte(b, h[..n], a);
      RankedLast(h, 2, 3);
      assert Writes(h) == Writes(h[..n]) + [h[n].w];
      ByteAfterConcat(b, Writes(h[..n]), [h[n].w], a);
      if h[n].mark.Fenced? {
        ByteAfterConcat(b, Ranked(h[..n], 2, 3), [h[n].w], a);
      } else {
        assert Ranked(h, 2, 3) == Ranked(h[..n], 2, 3);
      }
    }
  }

  lemma {:induction false} StoresOfPrefix(evs: seq<Event>, tail: seq<Event>)
    requires forall i :: 0 <= i < |tail| ==> !tail[i].Store?
    ensures StoresOf(evs + tail) == StoresOf(evs)
    decreases |tail|
  {
    if tail == [] {
      assert evs + tail == evs;
    } else {
      assert (evs + tail)[..|evs + tail| - 1] == evs + tail[..|tail| - 1];
      StoresOfPrefix(evs, tail[..|tail| - 1]);
    }
  }

  lemma FittingThenFlushed(m: Mapping, ptr: nat, length: nat, evs: seq<Event>)
    requires Fitting(evs)
    ensures Fitting(ThenFlushed(evs, m, ptr, length))
  {
    var all := ThenFlushed(evs, m, ptr, length);
    forall i | 0 <= i < |all| && all[i].Store? ensures all[i].w.Fits() {
      StoresBeforeFlushes(m, ptr, length, evs, i);
    }
  }

  lemma CoveringIsDurable(m: Mapping, ptr: nat, length: nat, evs: seq<Event>, b: nat, k: nat)
    requires m.Aligned() && ptr <= b < ptr + length
    requires var h := History(ThenFlushed(evs, m, ptr, length)); k < |h| && h[k].w.Covers(m.PmAddr(b))
    ensures History(ThenFlushed(evs, m, ptr, length))[k].mark.Fenced?
  {
    var all := ThenFlushed(evs, m, ptr, length);
    HistoryLength(all);
    HistoryMarks(all, k);
    var i := StorePositions(all)[k];
    StoresBeforeFlushes(m, ptr, length, evs, i);
    assert Touches(evs[i].w, m, ptr, length);
    RangeFlushDurable(m, ptr, length, evs, i);
  }

  /** And for one-line stores every byte of the range in the image is the byte of volatile memory. */
  lemma RangeFlushImage(init: Image, m: Mapping, ptr: nat, length: nat, evs: seq<Event>, b: nat)
    requires m.Aligned() && Fitting(evs) && ptr <= b < ptr + length && m.PmAddr(b) in init
    ensures var a := m.PmAddr(b);
            && a in FlatRun(init, ThenFlushed(evs, m, ptr, length)).img
            && FlatRun(init, ThenFlushed(evs, m, ptr, length)).img[a] == PutAll(init, StoresOf(evs))[a]
  {
    var all, a := ThenFlushed(evs, m, ptr, length), m.PmAddr(b);
    var h := History(all);
    FittingThenFlushed(m, ptr, length, evs);
    ReplayTracks(init, all);
    forall k | 0 <= k < |h| && h[k].w.Covers(a) ensures h[k].mark.Fenced? {
      CoveringIsDurable(m, ptr, length, evs, b, k);
    }
    DurableByte(init[a], h, a);
    StoresOfHistory(all);
    var tail := FlushEvents(Translated(m, LinesBelow(LineOf(ptr), ptr + length))) + [Fence];
    assert all == evs + tail;
    StoresOfPrefix(evs, tail);
  }
}
