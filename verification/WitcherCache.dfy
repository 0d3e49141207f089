/** The cache of the crash-image generator: one list of pending stores per cacheline, backed by a file. */
module WitcherCache {
  import opened Memory
  import opened Persistence
  import opened CacheSpec
  import opened CrashSpec
  import opened MemOps

  class WitcherCacheline {
    const address: nat
    const file: BinaryFile
    var stores: seq<Entry>

    constructor (address: nat, file: BinaryFile)
      ensures this.address == address && this.file == file && stores == []
    {
      this.address := address;
      this.file := file;
      stores := [];
    }

    predicate CanAcceptStore(w: Write) {
      address <= w.addr && w.addr + |w.bytes| <= address + CACHELINE_BYTES
    }

    /** A store this line may hold: nonempty, on this line and inside the file. */
    predicate Holds(w: Write) { w.Fits() && LineOf(w.addr) == address && file.InRange(w) }

    ghost predicate Valid()
      reads this
    {
      forall i :: 0 <= i < |stores| ==> Holds(stores[i].w) && !stores[i].mark.Fenced?
    }

    method AcceptStore(w: Write)
      requires Valid() && Holds(w)
      modifies this
      ensures Valid() && stores == old(stores) + [Entry(w, Clear)]
    {
      assert CanAcceptStore(w);  // the assertion of the source
      stores := stores + [Entry(w, Clear)];
    }

    method AcceptFlush(flushAddr: nat)
      requires Valid() && LineOf(flushAddr) == address  // the assertion of the source
      modifies this
      ensures Valid() && stores == Remark(old(stores), Flush(flushAddr))
    {
      for i := 0 to |stores|
        invariant |stores| == |old(stores)| && Valid()
        invariant forall k :: 0 <= k < |stores| ==>
                    stores[k] == if k < i then old(stores)[k].(mark := Flushing) else old(stores)[k]
      {
        stores := stores[i := MemOps.AcceptFlush(stores[i])];
      }
    }

    method WriteBackAllFlushingStores()
      requires Valid()
      modifies this, file.data
      ensures Valid() && stores == Keep(old(stores), 0, 1)
      ensures file.Img() == PutAll(old(file.Img()), Ranked(old(stores), 1, 2))
    {
      ghost var before, img := stores, file.Img();
      assert before[..0] == [];
      FencedNone(before);
      for i := 0 to |stores|
        invariant stores == FencedUpTo(before, i) && file.Img() == PutAll(img, Ranked(before[..i], 1, 2))
      {
        PutNextFlushing(img, before, i);
        FencedNext(before, i);
        if stores[i].mark.Flushing? {
          file.DoStore(stores[i].w);
          stores := stores[i := AcceptFence(stores[i])];
        }
      }
      assert before[..|stores|] == before;
      SameClear(before, stores);
      KeepMembers(stores, 0, 1);
      stores := Keep(stores, 0, 1);
    }

    method WriteBackAllStores()
      requires Valid()
      modifies this, file.data
      ensures stores == []
      ensures file.Img() == PutAll(old(file.Img()), Writes(old(stores)))
    {
      ghost var ws, before, img := Writes(stores), stores, file.Img();
      assert ws[..0] == [];
      for i := 0 to |stores|
        invariant |stores| == |before| && forall k :: i <= k < |stores| ==> stores[k] == before[k]
        invariant file.Img() == PutAll(img, ws[..i])
      {
        assert ws[..i + 1] == ws[..i] + [stores[i].w];
        PutAllConcat(img, ws[..i], [stores[i].w]);
        file.DoStore(stores[i].w);
        stores := stores[i := AcceptFence(stores[i])];
      }
      assert ws[..|stores|] == ws;
      stores := [];
    }
  }

  /** The list when the flushing stores among the first n have been written. */
  function FencedUpTo(es: seq<Entry>, n: nat): seq<Entry> {
    seq(|es|, k requires 0 <= k < |es| => if k < n && es[k].mark.Flushing? then es[k].(mark := Fenced) else es[k])
  }

  lemma FencedNone(es: seq<Entry>)
    ensures FencedUpTo(es, 0) == es
  {
  }

  lemma FencedNext(es: seq<Entry>, i: nat)
    requires i < |es|
    ensures FencedUpTo(es, i)[i] == es[i]
    ensures FencedUpTo(es, i + 1)
         == if es[i].mark.Flushing? then FencedUpTo(es, i)[i := es[i].(mark := Fenced)] else FencedUpTo(es, i)
  {
  }

  /** Lists that agree on which entries are clear keep the same clear entries. */
  lemma {:induction false} SameClear(xs: seq<Entry>, ys: seq<Entry>)
    requires |xs| == |ys|
    requires forall k :: 0 <= k < |xs| ==> xs[k].w == ys[k].w && (xs[k].mark.Clear? <==> ys[k].mark.Clear?)
    ensures Keep(xs, 0, 1) == Keep(ys, 0, 1)
  {
    if xs != [] {
      SameClear(xs[..|xs| - 1], ys[..|ys| - 1]);
    }
  }

  /** A line's own stores reach only the bytes of that line. */
  lemma OtherLineUntouched(b: Byte, ws: seq<Write>, line: nat, a: nat)
    requires AllFit(ws) && LineOf(a) != line
    requires forall i :: 0 <= i < |ws| ==> LineOf(ws[i].addr) == line
    ensures ByteAfter(b, ws, a) == b
  {
    SingleLine(ws, line);
    ByteDependsOnOwnLine(b, ws, a);
  }

  /** The image when the lines in `todo` have not been written back yet and all others have. */
  function PutSome(img: Image, lines: map<nat, seq<Entry>>, todo: set<nat>, lo: nat): Image {
    map a | a in img ::
      if LineOf(a) in todo then img[a] else ByteAfter(img[a], Ranked(At(lines, LineOf(a)), lo, 2), a)
  }

  lemma PutOneMore(img: Image, lines: map<nat, seq<Entry>>, todo: set<nat>, line: nat, lo: nat)
    requires line in todo && line in lines
    requires forall i :: 0 <= i < |lines[line]| ==> lines[line][i].w.Fits() && LineOf(lines[line][i].w.addr) == line
    ensures PutAll(PutSome(img, lines, todo, lo), Ranked(lines[line], lo, 2)) == PutSome(img, lines, todo - {line}, lo)
  {
    var ws := Ranked(lines[line], lo, 2);
    KeepMembers(lines[line], lo, 2);
    forall i | 0 <= i < |ws| ensures ws[i].Fits() && LineOf(ws[i].addr) == line {
      assert Keep(lines[line], lo, 2)[i] in lines[line];
    }
    forall a | a in img && LineOf(a) != line ensures forall b :: ByteAfter(b, ws, a) == b {
      forall b { OtherLineUntouched(b, ws, line, a); }
    }
  }

  lemma PutSomeAtEnds(img: Image, lines: map<nat, seq<Entry>>, lo: nat)
    ensures PutSome(img, lines, lines.Keys, lo) == img
    ensures PutSome(img, lines, {}, lo) == PutLines(img, lines, lo)
  {
  }

  /** Nothing in a line is fenced, so selecting the ranks below 2 selects everything. */
  lemma {:induction false} AllPending(es: seq<Entry>)
    requires forall i :: 0 <= i < |es| ==> !es[i].mark.Fenced?
    ensures Ranked(es, 0, 2) == Writes(es)
  {
    if es != [] {
      AllPending(es[..|es| - 1]);
      RankedLast(es, 0, 2);
    }
  }

  lemma PutOneMoreWhole(img: Image, lines: map<nat, seq<Entry>>, todo: set<nat>, line: nat)
    requires line in todo && line in lines
    requires forall i :: 0 <= i < |lines[line]| ==>
               lines[line][i].w.Fits() && LineOf(lines[line][i].w.addr) == line && !lines[line][i].mark.Fenced?
    ensures PutAll(PutSome(img, lines, todo, 0), Writes(lines[line])) == PutSome(img, lines, todo - {line}, 0)
  {
    PutOneMore(img, lines, todo, line, 0);
    AllPending(lines[line]);
  }

  lemma UpdateTwice(m: map<nat, seq<Entry>>, line: nat, x: seq<Entry>, y: seq<Entry>)
    ensures m[line := x][line := y] == m[line := y]
  {
  }

  /** The lists when every line but those in `todo` has written back its flushing stores. */
  function KeptBut(before: map<nat, seq<Entry>>, todo: set<nat>): map<nat, seq<Entry>> {
    map line | line in before :: if line in todo then before[line] else Keep(before[line], 0, 1)
  }

  /** The lines visited so far that are left empty. */
  function EmptyBut(before: map<nat, seq<Entry>>, todo: set<nat>): set<nat> {
    set line | line in before && line !in todo && Keep(before[line], 0, 1) == []
  }

  lemma KeptOneMore(before: map<nat, seq<Entry>>, todo: set<nat>, line: nat)
    requires line in todo && line in before
    ensures KeptBut(before, todo)[line := Keep(before[line], 0, 1)] == KeptBut(before, todo - {line})
  {
  }

  lemma EmptyOneMore(before: map<nat, seq<Entry>>, todo: set<nat>, line: nat)
    requires line in todo && line in before
    ensures EmptyBut(before, todo - {line})
         == EmptyBut(before, todo) + if Keep(before[line], 0, 1) == [] then {line} else {}
  {
  }

  lemma KeptAtStart(before: map<nat, seq<Entry>>)
    ensures KeptBut(before, before.Keys) == before && EmptyBut(before, before.Keys) == {}
  {
  }

  lemma DroppedIsClear(before: map<nat, seq<Entry>>)
    ensures KeptBut(before, {}) - EmptyBut(before, {}) == ClearLines(before)
  {
  }

  class WitcherCache {
    var lines: map<nat, WitcherCacheline>
    const file: BinaryFile
    ghost var view: map<nat, seq<Entry>>   // the list of each line
    ghost var repr: set<WitcherCacheline>  // every line object this cache has created

    constructor (file: BinaryFile)
      ensures Valid() && this.file == file && repr == {} && view == map[]
    {
      this.file := file;
      lines, view, repr := map[], map[], {};
    }

    ghost predicate Valid()
      reads this, repr
    {
      && view.Keys == lines.Keys
      && forall line :: line in lines ==>
           && lines[line] in repr && lines[line].address == line && lines[line].file == file
           && lines[line].stores == view[line] && lines[line].Valid()
    }

    /** The cache as a value: the image and the list of each line. */
    ghost function Abs(): Lined
      reads this, file.data
    {
      Lined(file.Img(), view)
    }

    /** Finds the cacheline of an address, and creates it if it is not there. */
    method GetCacheline(address: nat) returns (l: WitcherCacheline)
      requires Valid()
      modifies this
      ensures Valid() && fresh(repr - old(repr)) && old(repr) <= repr
      ensures LineOf(address) in lines && l == lines[LineOf(address)]
      ensures view == old(view)[LineOf(address) := At(old(view), LineOf(address))]
    {
      var line := LineOf(address);
      if line !in lines {
        l := new WitcherCacheline(line, file);
        lines, view, repr := lines[line := l], view[line := []], repr + {l};
      }
      l := lines[line];
    }

    method AcceptStore(w: Write)
      requires Valid() && w.Fits() && file.InRange(w)
      modifies this, repr
      ensures Valid() && fresh(repr - old(repr))
      ensures Abs() == LinedStep(old(Abs()), Store(w))
    {
      var l := GetCacheline(w.addr);
      var line := l.address;
      ghost var now := view;
      AppendTo(line, w);
      UpdateTwice(old(view), line, now[line], view[line]);
    }

    method AppendTo(line: nat, w: Write)
      requires Valid() && line in lines && lines[line].Holds(w)
      modifies this`view, lines[line]
      ensures Valid() && view == old(view)[line := old(view)[line] + [Entry(w, Clear)]]
    {
      lines[line].AcceptStore(w);
      view := view[line := lines[line].stores];
    }

    method MarkLine(line: nat, flushAddr: nat)
      requires Valid() && line in lines && LineOf(flushAddr) == line
      modifies this`view, lines[line]
      ensures Valid() && view == old(view)[line := Remark(old(view)[line], Flush(flushAddr))]
    {
      lines[line].AcceptFlush(flushAddr);
      view := view[line := lines[line].stores];
    }

    method AcceptFlush(flushAddr: nat)
      requires Valid()
      modifies this, repr
      ensures Valid() && fresh(repr - old(repr))
      ensures Abs() == LinedStep(old(Abs()), Flush(flushAddr))
    {
      var l := GetCacheline(flushAddr);
      var line := l.address;
      ghost var now := view;
      MarkLine(line, flushAddr);
      UpdateTwice(old(view), line, now[line], view[line]);
    }

    method WriteBackFlushingLine(line: nat) returns (isEmpty: bool)
      requires Valid() && line in lines
      modifies this`view, lines[line], file.data
      ensures Valid() && view == old(view)[line := Keep(old(view)[line], 0, 1)]
      ensures isEmpty <==> view[line] == []
      ensures file.Img() == PutAll(old(file.Img()), Ranked(old(view)[line], 1, 2))
    {
      lines[line].WriteBackAllFlushingStores();
      view := view[line := lines[line].stores];
      isEmpty := lines[line].stores == [];
    }

    method WriteBackLine(line: nat)
      requires Valid() && line in lines
      modifies this`view, lines[line], file.data
      ensures Valid() && view == old(view)[line := []]
      ensures file.Img() == PutAll(old(file.Img()), Writes(old(view)[line]))
    {
      lines[line].WriteBackAllStores();
      view := view[line := []];
    }

    /** The first loop of write_back_all_flushing_stores: line by line, in any order of the lines. */
    method PersistFlushing() returns (empty: set<nat>)
      requires Valid()
      modifies this`view, repr, file.data
      ensures Valid() && file.Img() == PutLines(old(file.Img()), old(view), 1)
      ensures view == KeptBut(old(view), {}) && empty == EmptyBut(old(view), {})
    {
      ghost var img, before := file.Img(), view;
      var todo := lines.Keys;
      empty := {};
      PutSomeAtEnds(img, before, 1);
      KeptAtStart(before);
      while todo != {}
        invariant Valid() && todo <= lines.Keys && view == KeptBut(before, todo) && empty == EmptyBut(before, todo)
        invariant file.Img() == PutSome(img, before, todo, 1)
      {
        var line :| line in todo;
        empty := PersistLine(line, empty, img, before, todo);
        todo := todo - {line};
      }
    }

    /** One round: the flushing stores of one line join those written so far. */
    method PersistLine(line: nat, empty: set<nat>, ghost img: Image, ghost before: map<nat, seq<Entry>>,
                       ghost todo: set<nat>) returns (empty': set<nat>)
      requires Valid() && line in lines && line in todo && view == KeptBut(before, todo)
      requires empty == EmptyBut(before, todo) && file.Img() == PutSome(img, before, todo, 1)
      modifies this`view, lines[line], file.data
      ensures Valid() && view == KeptBut(before, todo - {line}) && empty' == EmptyBut(before, todo - {line})
      ensures file.Img() == PutSome(img, before, todo - {line}, 1)
    {
      var isEmpty := PersistOne(line, img, before, todo);
      EmptyOneMore(before, todo, line);
      empty' := if isEmpty then empty + {line} else empty;
    }

    method PersistOne(line: nat, ghost img: Image, ghost before: map<nat, seq<Entry>>, ghost todo: set<nat>)
      returns (isEmpty: bool)
      requires Valid() && line in lines && line in todo && view == KeptBut(before, todo)
      requires file.Img() == PutSome(img, before, todo, 1)
      modifies this`view, lines[line], file.data
      ensures Valid() && view == KeptBut(before, todo - {line}) && line in before
      ensures isEmpty <==> Keep(before[line], 0, 1) == []
      ensures file.Img() == PutSome(img, before, todo - {line}, 1)
    {
      assert view[line] == before[line] && lines[line].Valid();
      PutOneMore(img, before, todo, line, 1);
      KeptOneMore(before, todo, line);
      isEmpty := WriteBackFlushingLine(line);
    }

    method DropLines(empty: set<nat>)
      requires Valid()
      modifies this`lines, this`view
      ensures Valid() && view == old(view) - empty
    {
      lines, view := lines - empty, view - empty;
    }

    /** Persists every flushing store and drops the lines left empty. */
    method WriteBackAllFlushingStores()
      requires Valid()
      modifies this, repr, file.data
      ensures Valid() && repr == old(repr)
      ensures Abs() == LinedStep(old(Abs()), Fence)
    {
      var empty := PersistFlushing();
      DroppedIsClear(old(view));
      DropLines(empty);
    }

    method WriteBackAllStores()
      requires Valid()
      modifies this, repr, file.data
      ensures Valid() && repr == old(repr)
      ensures Abs() == LinedStep(old(Abs()), WriteBack)
    {
      ghost var img, before := file.Img(), view;
      var todo := lines.Keys;
      PutSomeAtEnds(img, before, 0);
      while todo != {}
        invariant Valid() && lines == old(lines) && repr == old(repr) && todo <= lines.Keys
        invariant forall line :: line in todo ==> view[line] == before[line]
        invariant file.Img() == PutSome(img, before, todo, 0)
      {
        var line :| line in todo;
        PutOneMoreWhole(img, before, todo, line);
        WriteBackLine(line);
        todo := todo - {line};
      }
      lines, view := map[], map[];
    }
  }
}
