/** The cache of the two-thread replay: one list of pending stores in program order, backed by a file. */
module ReplayCache {
  import opened Memory
  import opened Persistence
  import opened CacheSpec
  import opened MemOps

  class ReplayCache {
    var ops: seq<Entry>
    const file: BinaryFile

    constructor (file: BinaryFile)
      ensures Valid() && this.file == file && ops == []
    {
      this.file := file;
      ops := [];
    }

    ghost predicate Valid()
      reads this
    {
      forall i :: 0 <= i < |ops| ==> file.InRange(ops[i].w) && !ops[i].mark.Fenced?
    }

    ghost function Abs(): Flat
      reads this, file.data
    {
      Flat(file.Img(), ops)
    }

    method AcceptFlush(flushAddr: nat)
      requires Valid()
      modifies this
      ensures Valid() && Abs() == FlatStep(old(Abs()), Flush(flushAddr))
    {
      ops := MarkFlushed(ops, flushAddr);
    }

    method AcceptFence()
      requires Valid()
      modifies this, file.data
      ensures Valid() && Abs() == FlatStep(old(Abs()), Fence)
    {
      ghost var img := file.Img();
      assert ops[..0] == [];
      for i := 0 to |ops|
        invariant ops == old(ops)
        invariant file.Img() == PutAll(img, Ranked(ops[..i], 1, 2))
      {
        PutNextFlushing(img, ops, i);
        if ops[i].mark.Flushing? {
          file.DoStore(ops[i].w);
        }
      }
      assert ops[..|ops|] == ops;
      KeepMembers(ops, 0, 1);
      ops := Keep(ops, 0, 1);
    }

    method WriteBackAllStores()
      requires Valid()
      modifies this, file.data
      ensures Valid() && Abs() == FlatStep(old(Abs()), WriteBack)
    {
      ghost var ws, img := Writes(ops), file.Img();
      assert ws[..0] == [];
      for i := 0 to |ops|
        invariant ops == old(ops)
        invariant file.Img() == PutAll(img, ws[..i])
      {
        assert ws[..i + 1] == ws[..i] + [ops[i].w];
        PutAllConcat(img, ws[..i], [ops[i].w]);
        file.DoStore(ops[i].w);
      }
      assert ws[..|ops|] == ws;
      ops := [];
    }

    /** Dispatches on the kind of operation; loads, locks and API marks are ignored. */
    method AcceptOp(ev: Event)
      requires Valid() && !ev.WriteBack?
      requires ev.Store? ==> file.InRange(ev.w)
      modifies this, file.data
      ensures Valid() && Abs() == FlatStep(old(Abs()), ev)
    {
      match ev
      case Store(w) => ops := ops + [Entry(w, Clear)];
      case Flush(a) => AcceptFlush(a);
      case Fence => AcceptFence();
      case Other =>
    }

    method AcceptOps(evs: seq<Event>)
      requires Valid()
      requires forall i :: 0 <= i < |evs| ==> !evs[i].WriteBack? && (evs[i].Store? ==> file.InRange(evs[i].w))
      modifies this, file.data
      ensures Valid() && Abs() == FlatFrom(old(Abs()), evs)
    {
      assert evs[..0] == [];
      for i := 0 to |evs|
        invariant Valid() && Abs() == FlatFrom(old(Abs()), evs[..i])
      {
        assert evs[..i + 1][..i] == evs[..i];
        AcceptOp(evs[i]);
      }
      assert evs[..|evs|] == evs;
    }
  }
}
