/** Byte images of persistent memory and what a sequence of stores makes of them. */
module Memory {
  const CACHELINE_BYTES: nat := 64

  type Byte = b: int | 0 <= b < 256

  /** The content of a mapped file, by absolute address. */
  type Image = map<nat, Byte>

  /** The immutable part of a Store operation. */
  datatype Write = Write(addr: nat, bytes: seq<Byte>, id: int) {
    predicate Covers(a: nat) { addr <= a < addr + |bytes| }

    /** Nonempty and inside one cacheline: what WitcherCacheline asserts of every store it takes. */
    predicate Fits() { 0 < |bytes| && addr + |bytes| <= LineOf(addr) + CACHELINE_BYTES }
  }

  /** The start of the cacheline that holds `a`. */
  function LineOf(a: nat): nat { a / CACHELINE_BYTES * CACHELINE_BYTES }

  /** range_cmp(lhs, rhs): -1 before, 1 after, 0 overlapping. */
  function RangeCmp(base: nat, max: nat, otherBase: nat, otherMax: nat): int {
    if max <= otherBase then -1 else if base >= otherMax then 1 else 0
  }

  /** Flush.is_in_flush: does flushing the line of `flushAddr` touch `[base, base + size)`? */
  predicate InFlush(flushAddr: nat, base: nat, size: nat) {
    RangeCmp(base, base + size, LineOf(flushAddr), LineOf(flushAddr) + CACHELINE_BYTES) == 0
  }

  ghost predicate AllFit(ws: seq<Write>) { forall i :: 0 <= i < |ws| ==> ws[i].Fits() }

  /** The byte at `a` after the stores `ws`, when it was `b` before: the last store covering it wins. */
  function ByteAfter(b: Byte, ws: seq<Write>, a: nat): Byte {
    if ws == [] then b
    else
      var w := ws[|ws| - 1];
      if w.Covers(a) then w.bytes[a - w.addr] else ByteAfter(b, ws[..|ws| - 1], a)
  }

  /** Plain sequential memory: all of `ws` applied to `img` in order. */
  function PutAll(img: Image, ws: seq<Write>): Image {
    map a | a in img :: ByteAfter(img[a], ws, a)
  }

  /** The stores of `ws` that start on the cacheline at `line`, in order. */
  function OnLine(ws: seq<Write>, line: nat): seq<Write> {
    if ws == [] then []
    else OnLine(ws[..|ws| - 1], line)
         + (if LineOf(ws[|ws| - 1].addr) == line then [ws[|ws| - 1]] else [])
  }

  lemma {:induction false} ByteAfterConcat(b: Byte, xs: seq<Write>, ys: seq<Write>, a: nat)
    ensures ByteAfter(b, xs + ys, a) == ByteAfter(ByteAfter(b, xs, a), ys, a)
    decreases |ys|
  {
    if ys == [] {
      assert xs + ys == xs;
    } else {
      assert (xs + ys)[..|xs + ys| - 1] == xs + ys[..|ys| - 1];
      ByteAfterConcat(b, xs, ys[..|ys| - 1], a);
    }
  }

  lemma PutAllConcat(img: Image, xs: seq<Write>, ys: seq<Write>)
    ensures PutAll(img, xs + ys) == PutAll(PutAll(img, xs), ys)
  {
    forall a | a in img ensures PutAll(img, xs + ys)[a] == PutAll(PutAll(img, xs), ys)[a] {
      ByteAfterConcat(img[a], xs, ys, a);
    }
  }

  /** A store that fits in a line reaches only the bytes of its own line. */
  lemma {:induction false} ByteDependsOnOwnLine(b: Byte, ws: seq<Write>, a: nat)
    requires AllFit(ws)
    ensures ByteAfter(b, ws, a) == ByteAfter(b, OnLine(ws, LineOf(a)), a)
  {
    if ws != [] {
      var w := ws[|ws| - 1];
      var front := ws[..|ws| - 1];
      ByteDependsOnOwnLine(b, front, a);
      var rest := OnLine(front, LineOf(a));
      if LineOf(w.addr) == LineOf(a) {
        assert (rest + [w])[..|rest + [w]| - 1] == rest;
      } else {
        assert !w.Covers(a);
        assert OnLine(ws, LineOf(a)) == rest;
      }
    }
  }

  /** Stores to different lines commute: only the order inside each line matters. */
  lemma SameLinesSameImage(img: Image, xs: seq<Write>, ys: seq<Write>)
    requires AllFit(xs) && AllFit(ys)
    requires forall line :: OnLine(xs, line) == OnLine(ys, line)
    ensures PutAll(img, xs) == PutAll(img, ys)
  {
    forall a | a in img ensures PutAll(img, xs)[a] == PutAll(img, ys)[a] {
      ByteDependsOnOwnLine(img[a], xs, a);
      ByteDependsOnOwnLine(img[a], ys, a);
    }
  }

  lemma {:induction false} OnLineConcat(xs: seq<Write>, ys: seq<Write>, line: nat)
    ensures OnLine(xs + ys, line) == OnLine(xs, line) + OnLine(ys, line)
    decreases |ys|
  {
    if ys == [] {
      assert xs + ys == xs;
    } else {
      assert (xs + ys)[..|xs + ys| - 1] == xs + ys[..|ys| - 1];
      OnLineConcat(xs, ys[..|ys| - 1], line);
    }
  }

  /** A flush touches a range that is not empty if and only if some byte of the range is on the flushed line. */
  lemma InFlushIff(flushAddr: nat, base: nat, size: nat)
    requires size > 0
    ensures InFlush(flushAddr, base, size) <==>
            exists a: nat :: base <= a < base + size && LineOf(a) == LineOf(flushAddr)
  {
    var line := LineOf(flushAddr);
    if InFlush(flushAddr, base, size) {
      var a := if base < line then line else base;
      assert base <= a < base + size && LineOf(a) == line;
    }
  }

  /** For a store that fits in a line, overlapping the flushed line is being on it. */
  lemma InFlushIsSameLine(flushAddr: nat, w: Write)
    requires w.Fits()
    ensures InFlush(flushAddr, w.addr, |w.bytes|) <==> LineOf(w.addr) == LineOf(flushAddr)
  {
  }
}
