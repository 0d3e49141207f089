/** The mark transitions of a Store operation, and the file that backs the image. */
module MemOps {
  import opened Memory
  import opened Persistence

  /** Store.accept_flush; the precondition is its assertion. */
  function AcceptFlush(e: Entry): (r: Entry)
    requires e.mark.Clear? || e.mark.Flushing?
  {
    e.(mark := Flushing)
  }

  /** Store.accept_fence; the precondition is its assertion. */
  function AcceptFence(e: Entry): (r: Entry)
    requires e.mark.Clear? || e.mark.Flushing?
  {
    e.(mark := Fenced)
  }

  /** The addresses from `base` up to `base + size`. */
  function Range(base: nat, size: nat): (r: set<nat>)
    ensures forall a :: a in r <==> base <= a < base + size
  {
    if size == 0 then {} else Range(base, size - 1) + {base + size - 1}
  }

  /** The image that a file content is at an address. */
  function ImageOf(base: nat, data: seq<Byte>): Image { map a | a in Range(base, |data|) :: data[a - base] }

  /** Marks every pending store that the flush covers, in a loop over the list. */
  method MarkFlushed(ops: seq<Entry>, flushAddr: nat) returns (r: seq<Entry>)
    requires forall i :: 0 <= i < |ops| ==> !ops[i].mark.Fenced?
    ensures r == Remark(ops, Flush(flushAddr))
  {
    r := ops;
    for i := 0 to |ops|
      invariant |r| == |ops|
      invariant forall k :: 0 <= k < |ops| ==> r[k] == if k < i then Remark(ops, Flush(flushAddr))[k] else ops[k]
    {
      if InFlush(flushAddr, r[i].w.addr, |r[i].w.bytes|) {
        r := r[i := AcceptFlush(r[i])];
      }
    }
  }

  /** A mapped file: `data[i]` is the byte at address `base + i`. */
  class BinaryFile {
    const base: nat
    const data: array<Byte>

    /** Maps a file with this content. */
    constructor (base: nat, content: seq<Byte>)
      ensures this.base == base && data.Length == |content| && fresh(data) && Img() == ImageOf(base, content)
    {
      this.base := base;
      data := new Byte[|content|](i requires 0 <= i < |content| => content[i]);
    }

    ghost function Img(): Image
      reads data
    {
      map a | a in Range(base, data.Length) :: data[a - base]
    }

    predicate InRange(w: Write) { base <= w.addr && w.addr + |w.bytes| <= base + data.Length }

    method DoStore(w: Write)
      requires InRange(w)
      modifies data
      ensures Img() == PutAll(old(Img()), [w])
    {
      for i := 0 to |w.bytes|
        invariant forall k :: 0 <= k < data.Length ==>
                    data[k] == if w.addr - base <= k < w.addr - base + i
                               then w.bytes[k - (w.addr - base)] else old(data[k])
      {
        data[w.addr - base + i] := w.bytes[i];
      }
      forall a | a in old(Img()) ensures Img()[a] == PutAll(old(Img()), [w])[a] {
        assert ByteAfter(old(Img())[a], [w][..0], a) == old(Img())[a];
      }
    }

    /** cp: a second file with the same content. */
    method Copy() returns (f: BinaryFile)
      ensures fresh(f) && fresh(f.data)
      ensures f.base == base && f.data.Length == data.Length && f.Img() == Img()
    {
      f := new BinaryFile(base, data[..]);
    }
  }
}
