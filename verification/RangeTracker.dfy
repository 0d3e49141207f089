/**
 * The list of mapped persistent-memory ranges: sorted by address, pairwise disjoint, and in agreement with the
 * plain question "which mapping, if any, holds this byte?".
 */
module RangeTracker {
  import opened Wrappers

  datatype Kind = Kind(mapType: int, region: int)

  /** A map_tracker: the bytes [base, end) of one mapping. An empty range is allowed. */
  datatype Tracker = Tracker(base: nat, end: nat, kind: Kind) {
    predicate Covers(a: int) { base <= a < end }
  }

  datatype Status = Ok | Duplicate | Invalid | OutOfMemory

  // ---- Lists of trackers ----

  /** No byte belongs to both. */
  predicate Apart(t: Tracker, u: Tracker) { t.end <= u.base || u.end <= t.base || t.base == t.end || u.base == u.end }

  predicate ApartFromAll(ts: seq<Tracker>, u: Tracker) { forall i :: 0 <= i < |ts| ==> Apart(ts[i], u) }

  ghost predicate ValidList(ts: seq<Tracker>) {
    && (forall i :: 0 <= i < |ts| ==> ts[i].base <= ts[i].end)
    && (forall i, j :: 0 <= i < j < |ts| ==> ts[i].base <= ts[j].base && Apart(ts[i], ts[j]))
  }

  /** The kind of the mapping that holds byte `a`. */
  function KindAt(ts: seq<Tracker>, a: int): Option<Kind> {
    if ts == [] then None else if ts[0].Covers(a) then Some(ts[0].kind) else KindAt(ts[1..], a)
  }

  lemma {:induction false} KindAtConcat(xs: seq<Tracker>, ys: seq<Tracker>, a: int)
    ensures KindAt(xs + ys, a) == if KindAt(xs, a).Some? then KindAt(xs, a) else KindAt(ys, a)
  {
    if xs == [] {
      assert xs + ys == ys;
    } else {
      assert (xs + ys)[1..] == xs[1..] + ys;
      KindAtConcat(xs[1..], ys, a);
    }
  }

  lemma {:induction false} KindAtNone(ts: seq<Tracker>, a: int)
    ensures KindAt(ts, a).None? <==> forall i :: 0 <= i < |ts| ==> !ts[i].Covers(a)
  {
    if ts != [] {
      KindAtNone(ts[1..], a);
      assert forall i :: 0 < i < |ts| ==> ts[i] == ts[1..][i - 1];
    }
  }

  /** Adding or removing one tracker changes just the bytes it covers. */
  lemma KindAtInsert(xs: seq<Tracker>, t: Tracker, ys: seq<Tracker>, a: int)
    requires forall i :: 0 <= i < |xs| ==> Apart(xs[i], t)
    ensures KindAt(xs + [t] + ys, a) == if t.Covers(a) then Some(t.kind) else KindAt(xs + ys, a)
  {
    KindAtConcat(xs + [t], ys, a);
    KindAtConcat(xs, [t], a);
    KindAtConcat(xs, ys, a);
    KindAtNone(xs, a);
  }

  // ---- Finding ----

  /** The test of util_range_find_unlocked. */
  predicate Hit(t: Tracker, addr: nat, len: nat) { addr < t.end && (addr >= t.base || addr + len > t.base) }

  function Hits(ts: seq<Tracker>, addr: nat, len: nat): nat {
    if ts == [] then 0 else (if Hit(ts[0], addr, len) then 1 else 0) + Hits(ts[1..], addr, len)
  }

  lemma {:induction false} HitsConcat(xs: seq<Tracker>, ys: seq<Tracker>, addr: nat, len: nat)
    ensures Hits(xs + ys, addr, len) == Hits(xs, addr, len) + Hits(ys, addr, len)
  {
    if xs == [] {
      assert xs + ys == ys;
    } else {
      assert (xs + ys)[1..] == xs[1..] + ys;
      HitsConcat(xs[1..], ys, addr, len);
    }
  }

  lemma HitsInsert(xs: seq<Tracker>, t: Tracker, ys: seq<Tracker>, addr: nat, len: nat)
    ensures Hits(xs + [t] + ys, addr, len) == Hits(xs + ys, addr, len) + (if Hit(t, addr, len) then 1 else 0)
  {
    HitsConcat(xs + [t], ys, addr, len);
    HitsConcat(xs, [t], addr, len);
    HitsConcat(xs, ys, addr, len);
    assert Hits([t], addr, len) == if Hit(t, addr, len) then 1 else 0;
  }

  /** Malloc: may fail at any time. */
  method Malloc() returns (ok: bool) {
    ok := *;
  }

  class MmapList {
    var list: seq<Tracker>
    const pageSize: nat
    const mmapAlign: nat

    constructor (pageSize: nat, mmapAlign: nat)
      requires pageSize > 0 && mmapAlign > 0
      ensures Valid() && list == []
      ensures this.pageSize == pageSize && this.mmapAlign == mmapAlign
    {
      this.pageSize, this.mmapAlign := pageSize, mmapAlign;
      list := [];
    }

    ghost predicate Valid()
      reads this
    {
      ValidList(list) && pageSize > 0 && mmapAlign > 0
    }

    /** The first tracker that meets the range, or -1. Stopping at the first tracker above `addr` misses none. */
    method Find(addr: nat, len: nat) returns (r: int)
      requires Valid()
      ensures -1 <= r < |list|
      ensures r >= 0 ==> Hit(list[r], addr, len) && forall i :: 0 <= i < r ==> !Hit(list[i], addr, len)
      ensures r < 0 ==> forall i :: 0 <= i < |list| ==> !Hit(list[i], addr, len)
    {
      for i := 0 to |list|
        invariant forall k :: 0 <= k < i ==> !Hit(list[k], addr, len)
      {
        if Hit(list[i], addr, len) {
          return i;
        }
        if addr < list[i].base {
          return -1;
        }
      }
      return -1;
    }

    /** PMDK_SORTEDQ_INSERT: before the first tracker with no smaller base. */
    method Insert(t: Tracker) returns (ghost n: nat)
      requires Valid() && t.base <= t.end
      requires ApartFromAll(list, t)
      modifies this
      ensures Valid() && n <= |old(list)| && list == old(list)[..n] + [t] + old(list)[n..]
    {
      var k := 0;
      while k < |list| && list[k].base < t.base
        invariant 0 <= k <= |list| && forall i :: 0 <= i < k ==> list[i].base < t.base
      {
        k := k + 1;
      }
      ValidInsert(list, t, k);
      list := list[..k] + [t] + list[k..];
      n := k;
    }

    /** Insert of an optional tracker, in terms of the bytes tracked and of the trackers that meet a range. */
    method InsertPiece(t: Option<Tracker>, ghost addr: nat, ghost len: nat, ghost u: Tracker)
      requires Valid() && (t.Some? ==> t.value.base <= t.value.end && !Hit(t.value, addr, len))
      requires t.Some? ==> ApartFromAll(list, t.value)
      requires ApartFromAll(list, u) && (t.Some? ==> Apart(t.value, u))
      modifies this
      ensures Valid() && Hits(list, addr, len) == Hits(old(list), addr, len) && ApartFromAll(list, u)
      ensures forall a :: KindAt(list, a) == WithPiece(t, KindAt(old(list), a), a)
    {
      if t.Some? {
        ghost var n := Insert(t.value);
        ghost var xs, ys := old(list)[..n], old(list)[n..];
        assert xs + ys == old(list);
        HitsInsert(xs, t.value, ys, addr, len);
        forall a ensures KindAt(list, a) == WithPiece(t, KindAt(old(list), a), a) {
          KindAtInsert(xs, t.value, ys, a);
        }
      }
    }

    /** util_range_split: takes [addr, end) out of one tracker, keeping what is left of it on either side. */
    method Split(i: nat, addr: nat, end: nat) returns (r: Status)
      requires Valid() && i < |list| && addr <= end && Hit(list[i], addr, end - addr)
      modifies this
      ensures Valid() && (r == Ok || r == Invalid || r == OutOfMemory)
      ensures r == Invalid <==> addr == end || addr % mmapAlign != 0 || end % mmapAlign != 0
      ensures r != Ok ==> list == old(list)
      ensures r == Ok ==> Hits(list, addr, end - addr) == Hits(old(list), addr, end - addr) - 1
      ensures r == Ok ==> CutOut(old(list), old(list)[i], addr, end, list)
    {
      if addr == end || addr % mmapAlign != 0 || end % mmapAlign != 0 {
        return Invalid;
      }
      var mt := list[i];
      var mtb, mte := None, None;
      if addr > mt.base {
        var ok := Malloc();
        if !ok {
          return OutOfMemory;
        }
        mtb := Some(mt.(end := addr));
      }
      if end < mt.end {
        var ok := Malloc();
        if !ok {
          return OutOfMemory;
        }
        mte := Some(mt.(base := end));
      }
      Replace(i, mtb, mte, addr, end);
      r := Ok;
    }

    method Remove(i: nat, ghost addr: nat, ghost len: nat)
      requires Valid() && i < |list| && Hit(list[i], addr, len)
      modifies this
      ensures Valid() && Hits(list, addr, len) == Hits(old(list), addr, len) - 1 && ApartFromAll(list, old(list)[i])
      ensures forall a :: KindAt(old(list), a) == WithPiece(Some(old(list)[i]), KindAt(list, a), a)
      ensures forall a :: old(list)[i].Covers(a) ==> KindAt(list, a) == None
    {
      RemoveOne(list, i, addr, len);
      list := list[..i] + list[i + 1..];
    }

    method InsertPieces(ghost mt: Tracker, mtb: Option<Tracker>, mte: Option<Tracker>, ghost addr: nat, ghost end: nat)
      requires Valid() && ApartFromAll(list, mt) && mt.base <= mt.end && addr < end && Hit(mt, addr, end - addr)
      requires mtb == if addr > mt.base then Some(mt.(end := addr)) else None
      requires mte == if end < mt.end then Some(mt.(base := end)) else None
      modifies this
      ensures Valid() && Hits(list, addr, end - addr) == Hits(old(list), addr, end - addr)
      ensures forall a :: KindAt(list, a) == WithPiece(mte, WithPiece(mtb, KindAt(old(list), a), a), a)
    {
      ghost var hi := mt.(base := if end < mt.end then end else mt.end);
      PartApart(list, mt, mt.base, if addr > mt.base then addr else mt.base);
      PartApart(list, mt, hi.base, mt.end);
      InsertPiece(mtb, addr, end - addr, hi);
      InsertPiece(mte, addr, end - addr, hi.(end := hi.base));
    }

    /** The list surgery of util_range_split. */
    method Replace(i: nat, mtb: Option<Tracker>, mte: Option<Tracker>, ghost addr: nat, ghost end: nat)
      requires Valid() && i < |list| && addr < end && Hit(list[i], addr, end - addr)
      requires mtb == if addr > list[i].base then Some(list[i].(end := addr)) else None
      requires mte == if end < list[i].end then Some(list[i].(base := end)) else None
      modifies this
      ensures Valid() && Hits(list, addr, end - addr) == Hits(old(list), addr, end - addr) - 1
      ensures CutOut(old(list), old(list)[i], addr, end, list)
    {
      ghost var mt := list[i];
      Remove(i, addr, end - addr);
      ghost var rest := list;
      InsertPieces(mt, mtb, mte, addr, end);
      forall a ensures KindAt(list, a) == if mt.Covers(a) && addr <= a < end then None else KindAt(old(list), a) {
        PiecesKind(mt, mtb, mte, addr, end, KindAt(rest, a), a);
      }
    }

    /** PAGE_ALIGNED_UP_SIZE */
    function PageUp(len: nat): nat
      requires pageSize > 0
    {
      (len + pageSize - 1) / pageSize * pageSize
    }

    /** util_range_unregister. On success the pages of the range are tracked no more and every other byte keeps its
        mapping. It fails as invalid exactly when some tracker meets a range that is empty or not aligned. Out of
        memory it may have done part of the work, and only inside the range. */
    method Unregister(addr: nat, len: nat) returns (r: Status)
      requires Valid()
      modifies this
      ensures Valid() && (r == Ok || r == Invalid || r == OutOfMemory)
      ensures r == Ok ==> forall a ::
                KindAt(list, a) == if addr <= a < addr + PageUp(len) then None else KindAt(old(list), a)
      ensures r == Invalid ==> list == old(list)
      ensures r == Invalid <==> Hits(old(list), addr, PageUp(len)) > 0 && BadRange(addr, addr + PageUp(len))
      ensures r == OutOfMemory ==> Shrunk(old(list), list, addr, addr + PageUp(len))
    {
      r := UnregisterPages(addr, PageUp(len));
    }

    /** One round of the loop: cut one tracker and look for the next. */
    method CutNext(i: nat, addr: nat, end: nat) returns (r: Status, next: int)
      requires Valid() && i < |list| && addr <= end && Hit(list[i], addr, end - addr)
      modifies this
      ensures Valid() && (r == Ok || r == Invalid || r == OutOfMemory) && (r == Invalid <==> BadRange(addr, end))
      ensures r != Ok ==> list == old(list)
      ensures r == Ok ==> Hits(list, addr, end - addr) < Hits(old(list), addr, end - addr)
      ensures r == Ok ==> Shrunk(old(list), list, addr, end) && Found(list, next, addr, end - addr)
    {
      r := Split(i, addr, end);
      if r == Ok {
        next := Find(addr, end - addr);
      } else {
        next := -1;
      }
    }

    method UnregisterPages(addr: nat, n: nat) returns (r: Status)
      requires Valid()
      modifies this
      ensures Valid() && (r == Ok || r == Invalid || r == OutOfMemory)
      ensures r == Ok ==> forall a :: KindAt(list, a) == if addr <= a < addr + n then None else KindAt(old(list), a)
      ensures r == Invalid ==> list == old(list)
      ensures r == Invalid <==> Hits(old(list), addr, n) > 0 && BadRange(addr, addr + n)
      ensures r == OutOfMemory ==> Shrunk(old(list), list, addr, addr + n)
    {
      ghost var before := list;
      var i := Find(addr, n);
      HitsFound(list, addr, n);
      ghost var cut := false;
      while i >= 0
        invariant Valid() && Found(list, i, addr, n) && Shrunk(before, list, addr, addr + n)
        invariant if cut then Hits(before, addr, n) > 0 && !BadRange(addr, addr + n) else list == before
        invariant !cut ==> (Hits(before, addr, n) > 0 <==> i >= 0)
        decreases Hits(list, addr, n)
      {
        ghost var now := list;
        r, i := CutNext(i, addr, addr + n);
        if r != Ok {
          return;
        }
        ShrunkTwice(before, now, list, addr, addr + n);
        cut := true;
      }
      NoHitsUntracked(list, addr, n);
      r := Ok;
    }

    predicate BadRange(addr: nat, end: nat)
      requires mmapAlign > 0
    {
      addr == end || addr % mmapAlign != 0 || end % mmapAlign != 0
    }

    /** util_range_is_pmem: every byte of the range is tracked, by one tracker or by several that join up. For an
        empty range the answer is about the byte at `addr`. */
    method IsPmem(addr: nat, len: nat) returns (r: bool)
      requires Valid()
      ensures r <==> forall a :: addr <= a < addr + (if len == 0 then 1 else len) ==> KindAt(list, a).Some?
    {
      var cur, left, first := addr, len, true;
      while first || left > 0
        invariant addr <= cur && cur + left == addr + len
        invariant first ==> cur == addr && left == len
        invariant forall a :: addr <= a < cur ==> KindAt(list, a).Some?
        invariant !first && len == 0 ==> KindAt(list, addr).Some?
        decreases first, left
      {
        var i := Find(cur, left);
        KindAtNone(list, cur);
        if i < 0 || list[i].base > cur {
          assert KindAt(list, cur).None?;
          return false;
        }
        var mapLen := list[i].end - cur;
        if mapLen > left {
          mapLen := left;
        }
        TrackedBy(list, i);
        left, cur, first := left - mapLen, cur + mapLen, false;
      }
      return true;
    }

    /** util_range_register; `region` stands for the region of a device mapping. */
    method Register(addr: nat, len: nat, kind: Kind) returns (r: Status)
      requires Valid()
      modifies this
      ensures Valid() && (r == Ok || r == Duplicate || r == OutOfMemory)
      ensures r == Duplicate <==> exists i :: 0 <= i < |old(list)| && Hit(old(list)[i], addr, len)
      ensures r != Ok ==> list == old(list)
      ensures r == Ok ==> forall a ::
                KindAt(list, a) == if addr <= a < addr + len then Some(kind) else KindAt(old(list), a)
    {
      var i := Find(addr, len);
      if i >= 0 {
        return Duplicate;
      }
      var ok := Malloc();
      if !ok {
        return OutOfMemory;
      }
      var t := Tracker(addr, addr + len, kind);
      ghost var n := Insert(t);
      ghost var xs, ys := old(list)[..n], old(list)[n..];
      assert xs + ys == old(list);
      forall a ensures KindAt(list, a) == if t.Covers(a) then Some(kind) else KindAt(old(list), a) {
        KindAtInsert(xs, t, ys, a);
      }
      return Ok;
    }
  }

  /** Exactly the bytes of `t` in [addr, end) became untracked. */
  ghost predicate CutOut(before: seq<Tracker>, t: Tracker, addr: nat, end: nat, after: seq<Tracker>) {
    forall a :: KindAt(after, a) == if t.Covers(a) && addr <= a < end then None else KindAt(before, a)
  }

  /** The two pieces put back cover what the cut leaves of the tracker. */
  lemma PiecesKind(mt: Tracker, mtb: Option<Tracker>, mte: Option<Tracker>, addr: nat, end: nat, rest: Option<Kind>,
                   a: int)
    requires addr < end && Hit(mt, addr, end - addr)
    requires mtb == if addr > mt.base then Some(mt.(end := addr)) else None
    requires mte == if end < mt.end then Some(mt.(base := end)) else None
    requires mt.Covers(a) ==> rest == None
    ensures WithPiece(mte, WithPiece(mtb, rest, a), a)
         == if mt.Covers(a) && addr <= a < end then None else WithPiece(Some(mt), rest, a)
  {
  }

  /** Bytes outside the range keep their mapping; those inside keep it or lose it. */
  ghost predicate Shrunk(before: seq<Tracker>, after: seq<Tracker>, addr: nat, end: nat) {
    forall a :: KindAt(after, a) == KindAt(before, a) || (addr <= a < end && KindAt(after, a) == None)
  }

  lemma ShrunkTwice(xs: seq<Tracker>, ys: seq<Tracker>, zs: seq<Tracker>, addr: nat, end: nat)
    requires Shrunk(xs, ys, addr, end) && Shrunk(ys, zs, addr, end)
    ensures Shrunk(xs, zs, addr, end)
  {
  }

  /** What a search returns: a tracker that meets the range, or -1 if there is none. */
  ghost predicate Found(ts: seq<Tracker>, r: int, addr: nat, len: nat) {
    if r < 0 then r == -1 && forall i :: 0 <= i < |ts| ==> !Hit(ts[i], addr, len)
    else r < |ts| && Hit(ts[r], addr, len)
  }

  lemma {:induction false} HitsFound(ts: seq<Tracker>, addr: nat, len: nat)
    ensures Hits(ts, addr, len) > 0 <==> exists i :: 0 <= i < |ts| && Hit(ts[i], addr, len)
  {
    if ts != [] {
      HitsFound(ts[1..], addr, len);
      if i :| 0 <= i < |ts[1..]| && Hit(ts[1..][i], addr, len) {
        assert Hit(ts[i + 1], addr, len);
      }
      if i :| 0 < i < |ts| && Hit(ts[i], addr, len) {
        assert Hit(ts[1..][i - 1], addr, len);
      }
    }
  }

  lemma NoHitsUntracked(ts: seq<Tracker>, addr: nat, len: nat)
    requires forall i :: 0 <= i < |ts| ==> !Hit(ts[i], addr, len)
    ensures forall a :: addr <= a < addr + len ==> KindAt(ts, a) == None
  {
    forall a | addr <= a < addr + len ensures KindAt(ts, a) == None {
      KindAtNone(ts, a);
    }
  }

  lemma TrackedBy(ts: seq<Tracker>, i: nat)
    requires i < |ts|
    ensures forall a :: ts[i].Covers(a) ==> KindAt(ts, a).Some?
  {
    forall a | ts[i].Covers(a) ensures KindAt(ts, a).Some? {
      KindAtNone(ts, a);
    }
  }

  /** What a byte belongs to once `t` is in the list as well. */
  function WithPiece(t: Option<Tracker>, rest: Option<Kind>, a: int): Option<Kind> {
    if t.Some? && t.value.Covers(a) then Some(t.value.kind) else rest
  }

  /** A part of a range is apart from whatever the range is apart from. */
  lemma PartApart(ts: seq<Tracker>, t: Tracker, base: nat, end: nat)
    requires ApartFromAll(ts, t) && t.base <= base <= end <= t.end
    requires forall i :: 0 <= i < |ts| ==> ts[i].base <= ts[i].end
    ensures ApartFromAll(ts, t.(base := base, end := end))
  {
  }

  lemma RemoveValid(ts: seq<Tracker>, i: nat)
    requires ValidList(ts) && i < |ts|
    ensures ValidList(ts[..i] + ts[i + 1..]) && ApartFromAll(ts[..i] + ts[i + 1..], ts[i])
  {
    var rest := ts[..i] + ts[i + 1..];
    assert forall k :: 0 <= k < |rest| ==> rest[k] == ts[if k < i then k else k + 1];
  }

  lemma RemoveKind(ts: seq<Tracker>, i: nat, a: int)
    requires ValidList(ts) && i < |ts|
    ensures var rest := ts[..i] + ts[i + 1..];
            KindAt(ts, a) == WithPiece(Some(ts[i]), KindAt(rest, a), a) && (ts[i].Covers(a) ==> KindAt(rest, a) == None)
  {
    var xs, t, ys := ts[..i], ts[i], ts[i + 1..];
    assert ts == xs + [t] + ys;
    KindAtInsert(xs, t, ys, a);
    RemoveValid(ts, i);
    KindAtNone(xs + ys, a);
  }

  /** Removing a tracker removes its bytes. */
  lemma RemoveOne(ts: seq<Tracker>, i: nat, addr: nat, len: nat)
    requires ValidList(ts) && i < |ts| && Hit(ts[i], addr, len)
    ensures var rest := ts[..i] + ts[i + 1..];
            && ValidList(rest) && ApartFromAll(rest, ts[i]) && Hits(rest, addr, len) == Hits(ts, addr, len) - 1
            && (forall a :: KindAt(ts, a) == WithPiece(Some(ts[i]), KindAt(rest, a), a))
            && (forall a :: ts[i].Covers(a) ==> KindAt(rest, a) == None)
  {
    RemoveValid(ts, i);
    assert ts == ts[..i] + [ts[i]] + ts[i + 1..];
    HitsInsert(ts[..i], ts[i], ts[i + 1..], addr, len);
    var rest := ts[..i] + ts[i + 1..];
    forall a ensures KindAt(ts, a) == WithPiece(Some(ts[i]), KindAt(rest, a), a)
             ensures ts[i].Covers(a) ==> KindAt(rest, a) == None {
      RemoveKind(ts, i, a);
    }
  }

  lemma ValidInsert(ts: seq<Tracker>, t: Tracker, n: nat)
    requires ValidList(ts) && n <= |ts| && t.base <= t.end
    requires ApartFromAll(ts, t)
    requires forall i :: 0 <= i < n ==> ts[i].base < t.base
    requires n < |ts| ==> t.base <= ts[n].base
    ensures ValidList(ts[..n] + [t] + ts[n..])
  {
    var us := ts[..n] + [t] + ts[n..];
    forall i, j | 0 <= i < j < |us| ensures us[i].base <= us[j].base && Apart(us[i], us[j]) {
      var i', j' := if i < n then i else i - 1, if j < n then j else j - 1;
      if i != n && j != n {
        assert us[i] == ts[i'] && us[j] == ts[j'];
      } else if i == n {
        assert us[j] == ts[j'];
      } else {
        assert us[i] == ts[i'];
      }
    }
  }
}
