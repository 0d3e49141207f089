/** Reading a trace: splitting stores into atomic chunks, numbering operations, and finding the API calls. */
module TraceParser {
  import opened Memory

  const ATOMIC_WRITE_BYTES: nat := 8

  // ---- Splitting a store ----

  /** Reference: cut at every 8-byte boundary. */
  function Chunks(addr: nat, value: seq<Byte>, id: int): seq<Write>
    decreases |value|
  {
    if value == [] then []
    else
      var room := ATOMIC_WRITE_BYTES - addr % ATOMIC_WRITE_BYTES;
      var n := if |value| < room then |value| else room;
      [Write(addr, value[..n], id)] + Chunks(addr + n, value[n..], id + 1)
  }

  /** An empty store off a word boundary is kept as one empty chunk; the tracer never records one. */
  function Split(addr: nat, value: seq<Byte>, id: int): seq<Write> {
    if value == [] && addr % ATOMIC_WRITE_BYTES != 0 then [Write(addr, [], id)] else Chunks(addr, value, id)
  }

  method GetStores(addr: nat, value: seq<Byte>, id: int) returns (ws: seq<Write>)
    ensures ws == Split(addr, value, id)
  {
    var low := addr / ATOMIC_WRITE_BYTES * ATOMIC_WRITE_BYTES;
    var high := low + ATOMIC_WRITE_BYTES;
    ws := [];
    var index, offset := id, 0;
    if addr > low {
      var first := if |value| < high - addr then |value| else high - addr;
      FirstChunk(addr, value, id, first);
      ws := [Write(addr, value[0..first], index)];
      index := index + 1;
      offset := high - addr;
    }
    if offset <= |value| {
      var rest := GetWords(addr, value, index, offset);
      ws := ws + rest;
    }
  }

  /** The loop of get_stores and the chunk after it, from the word boundary at `offset` on. */
  method GetWords(addr: nat, value: seq<Byte>, id: int, from: nat) returns (ws: seq<Write>)
    requires from <= |value| && (addr + from) % ATOMIC_WRITE_BYTES == 0
    ensures ws == Chunks(addr + from, value[from..], id)
  {
    ws := [];
    var index, offset := id, from;
    ghost var target := Chunks(addr + from, value[from..], id);
    while offset + ATOMIC_WRITE_BYTES <= |value|
      invariant from <= offset <= |value| && (addr + offset) % ATOMIC_WRITE_BYTES == 0
      invariant target == ws + Chunks(addr + offset, value[offset..], index)
    {
      var chunk := Write(addr + offset, value[offset..offset + ATOMIC_WRITE_BYTES], index);
      NextWordChunk(addr, value, offset, index, ws);
      index := index + 1;
      ws := ws + [chunk];
      offset := offset + ATOMIC_WRITE_BYTES;
    }
    LastChunk(addr, value, offset, index, ws);
    if |value| - offset > 0 {
      ws := ws + [Write(addr + offset, value[offset..], index)];
    }
  }

  /** The chunk before the first word boundary. */
  lemma FirstChunk(addr: nat, value: seq<Byte>, id: int, n: nat)
    requires addr % ATOMIC_WRITE_BYTES != 0
    requires var room := ATOMIC_WRITE_BYTES - addr % ATOMIC_WRITE_BYTES; n == if |value| < room then |value| else room
    ensures Split(addr, value, id) == [Write(addr, value[0..n], id)] + Chunks(addr + n, value[n..], id + 1)
    ensures |value| < ATOMIC_WRITE_BYTES - addr % ATOMIC_WRITE_BYTES ==>
              Split(addr, value, id) == [Write(addr, value[0..n], id)]
  {
    assert value[0..n] == value[..n];
    if |value| == n {
      assert value[n..] == [];
      assert value[..n] == value;
    }
  }

  /** At a word boundary the next chunk is a whole word, or all that is left. */
  lemma NextChunk(addr: nat, value: seq<Byte>, id: int)
    requires addr % ATOMIC_WRITE_BYTES == 0 && value != []
    ensures |value| >= 8 ==>
              Chunks(addr, value, id) == [Write(addr, value[..8], id)] + Chunks(addr + 8, value[8..], id + 1)
    ensures |value| < 8 ==> Chunks(addr, value, id) == [Write(addr, value, id)]
  {
    if |value| < 8 {
      assert value[..|value|] == value && value[|value|..] == [];
    }
  }

  lemma NextWordChunk(addr: nat, value: seq<Byte>, offset: nat, index: int, ws: seq<Write>)
    requires offset + ATOMIC_WRITE_BYTES <= |value| && (addr + offset) % ATOMIC_WRITE_BYTES == 0
    ensures var next := offset + ATOMIC_WRITE_BYTES;
            ws + Chunks(addr + offset, value[offset..], index)
            == (ws + [Write(addr + offset, value[offset..next], index)]) + Chunks(addr + next, value[next..], index + 1)
    ensures (addr + offset + ATOMIC_WRITE_BYTES) % ATOMIC_WRITE_BYTES == 0
  {
    NextChunk(addr + offset, value[offset..], index);
    assert value[offset..][..8] == value[offset..offset + 8] && value[offset..][8..] == value[offset + 8..];
    Append(ws, Write(addr + offset, value[offset..offset + 8], index),
           Chunks(addr + offset + 8, value[offset + 8..], index + 1));
  }

  lemma LastChunk(addr: nat, value: seq<Byte>, offset: nat, index: int, ws: seq<Write>)
    requires offset <= |value| < offset + ATOMIC_WRITE_BYTES && (addr + offset) % ATOMIC_WRITE_BYTES == 0
    ensures ws + Chunks(addr + offset, value[offset..], index)
         == if offset < |value| then ws + [Write(addr + offset, value[offset..], index)] else ws
  {
    if offset < |value| {
      NextChunk(addr + offset, value[offset..], index);
    } else {
      assert value[offset..] == [];
    }
  }

  lemma Append(xs: seq<Write>, w: Write, ys: seq<Write>)
    ensures xs + ([w] + ys) == (xs + [w]) + ys
  {
  }

  lemma WordInsideLine(addr: nat, n: nat)
    requires addr % ATOMIC_WRITE_BYTES + n <= ATOMIC_WRITE_BYTES
    ensures addr + n <= LineOf(addr) + CACHELINE_BYTES
  {
  }

  /** `w` stays inside one word. */
  predicate InWord(w: Write) { 0 < |w.bytes| && w.addr % ATOMIC_WRITE_BYTES + |w.bytes| <= ATOMIC_WRITE_BYTES }

  /** Chunks are numbered consecutively, lie end to end from the first byte of the store to its last, and each
      stays inside one word, so that it fits in a cacheline. */
  lemma ChunkShape(addr: nat, value: seq<Byte>, id: int)
    ensures var ws := Chunks(addr, value, id);
            && (value == [] <==> ws == [])
            && (forall i :: 0 <= i < |ws| ==> ws[i].id == id + i && InWord(ws[i]) && ws[i].Fits())
            && (forall i :: 0 <= i < |ws| ==> ws[i].addr == if i == 0 then addr else ws[i - 1].addr + |ws[i - 1].bytes|)
            && (ws != [] ==> ws[|ws| - 1].addr + |ws[|ws| - 1].bytes| == addr + |value|)
  {
    var ws := Chunks(addr, value, id);
    forall i | 0 <= i < |ws|
      ensures ws[i].id == id + i && InWord(ws[i]) && ws[i].Fits()
      ensures ws[i].addr == if i == 0 then addr else ws[i - 1].addr + |ws[i - 1].bytes|
    {
      ChunkAt(addr, value, id, i);
      ChunkAfter(addr, value, id, i);
    }
    if value != [] {
      ChunksEnd(addr, value, id);
    }
  }

  lemma {:induction false} ChunkAt(addr: nat, value: seq<Byte>, id: int, i: nat)
    requires i < |Chunks(addr, value, id)|
    ensures var w := Chunks(addr, value, id)[i]; w.id == id + i && InWord(w) && w.Fits()
    decreases |value|
  {
    var room := ATOMIC_WRITE_BYTES - addr % ATOMIC_WRITE_BYTES;
    var n := if |value| < room then |value| else room;
    if i == 0 {
      WordInsideLine(addr, n);
    } else {
      ChunkAt(addr + n, value[n..], id + 1, i - 1);
    }
  }

  lemma {:induction false} ChunkAfter(addr: nat, value: seq<Byte>, id: int, i: nat)
    requires i < |Chunks(addr, value, id)|
    ensures var ws := Chunks(addr, value, id);
            ws[i].addr == if i == 0 then addr else ws[i - 1].addr + |ws[i - 1].bytes|
    decreases |value|
  {
    var room := ATOMIC_WRITE_BYTES - addr % ATOMIC_WRITE_BYTES;
    var n := if |value| < room then |value| else room;
    if i > 0 {
      ChunkAfter(addr + n, value[n..], id + 1, i - 1);
    }
  }

  lemma {:induction false} ChunksEnd(addr: nat, value: seq<Byte>, id: int)
    requires value != []
    ensures var ws := Chunks(addr, value, id);
            ws != [] && ws[|ws| - 1].addr + |ws[|ws| - 1].bytes| == addr + |value|
    decreases |value|
  {
    var room := ATOMIC_WRITE_BYTES - addr % ATOMIC_WRITE_BYTES;
    if |value| > room {
      ChunksEnd(addr + room, value[room..], id + 1);
    }
  }

  /** A store is cut at the word boundaries and nowhere else. */
  lemma {:induction false} ChunkCuts(addr: nat, value: seq<Byte>, id: int, i: nat)
    requires 0 < i < |Chunks(addr, value, id)|
    ensures Chunks(addr, value, id)[i].addr % ATOMIC_WRITE_BYTES == 0
    decreases |value|
  {
    var room := ATOMIC_WRITE_BYTES - addr % ATOMIC_WRITE_BYTES;
    if |value| > room {
      assert Chunks(addr, value, id)[i] == Chunks(addr + room, value[room..], id + 1)[i - 1];
      if i > 1 {
        ChunkCuts(addr + room, value[room..], id + 1, i - 1);
      } else {
        NextWord(addr, room);
      }
    }
  }

  lemma NextWord(addr: nat, room: nat)
    requires room == ATOMIC_WRITE_BYTES - addr % ATOMIC_WRITE_BYTES
    ensures (addr + room) % ATOMIC_WRITE_BYTES == 0
  {
  }

  /** Stores end to end from the first byte to the last, each inside one word, with the bytes at its address; cut at the
      word boundaries and nowhere else. */
  ghost predicate Tiles(ws: seq<Write>, addr: nat, bytes: seq<Byte>) {
    && (forall i :: 0 <= i < |ws| ==> Within(ws[i], addr, bytes) && (bytes != [] ==> InWord(ws[i])))
    && (forall i :: 0 < i < |ws| ==> Adjacent(ws[i - 1], ws[i]))
    && (if ws == [] then bytes == []
        else ws[0].addr == addr && ws[|ws| - 1].addr + |ws[|ws| - 1].bytes| == addr + |bytes|)
  }

  /** The bytes of a chunk are those of the store at its address. */
  predicate Within(w: Write, addr: nat, bytes: seq<Byte>) {
    && addr <= w.addr && w.addr + |w.bytes| <= addr + |bytes|
    && forall k :: 0 <= k < |w.bytes| ==> w.bytes[k] == bytes[w.addr - addr + k]
  }

  predicate Adjacent(v: Write, w: Write) {
    w.addr == v.addr + |v.bytes| && w.addr % ATOMIC_WRITE_BYTES == 0
  }

  lemma {:induction false} ChunkWithin(addr: nat, value: seq<Byte>, id: int, i: nat)
    requires i < |Chunks(addr, value, id)|
    ensures Within(Chunks(addr, value, id)[i], addr, value)
    decreases |value|
  {
    var room := ATOMIC_WRITE_BYTES - addr % ATOMIC_WRITE_BYTES;
    var n := if |value| < room then |value| else room;
    if i > 0 {
      ChunkWithin(addr + n, value[n..], id + 1, i - 1);
      WithinRest(Chunks(addr + n, value[n..], id + 1)[i - 1], addr, value, n);
    }
  }

  lemma WithinRest(w: Write, addr: nat, value: seq<Byte>, n: nat)
    requires n <= |value| && Within(w, addr + n, value[n..])
    ensures Within(w, addr, value)
  {
  }

  lemma ChunkTile(addr: nat, value: seq<Byte>, id: int, i: nat)
    requires i < |Chunks(addr, value, id)|
    ensures var ws := Chunks(addr, value, id);
            Within(ws[i], addr, value) && InWord(ws[i]) && (i > 0 ==> Adjacent(ws[i - 1], ws[i]))
  {
    ChunkWithin(addr, value, id, i);
    ChunkShape(addr, value, id);
    if i > 0 {
      ChunkCuts(addr, value, id, i);
    }
  }

  lemma ChunkEnds(addr: nat, value: seq<Byte>, id: int)
    ensures var ws := Chunks(addr, value, id);
            if ws == [] then value == []
            else ws[0].addr == addr && ws[|ws| - 1].addr + |ws[|ws| - 1].bytes| == addr + |value|
  {
    ChunkShape(addr, value, id);
  }

  lemma SplitTiles(addr: nat, bytes: seq<Byte>, id: int)
    ensures Tiles(Split(addr, bytes, id), addr, bytes)
  {
    if bytes != [] {
      var ws := Chunks(addr, bytes, id);
      forall i | 0 <= i < |ws|
        ensures Within(ws[i], addr, bytes) && InWord(ws[i]) && (i > 0 ==> Adjacent(ws[i - 1], ws[i]))
      {
        ChunkTile(addr, bytes, id, i);
      }
      ChunkEnds(addr, bytes, id);
    }
  }

  lemma {:induction false} ChunkBounds(addr: nat, value: seq<Byte>, id: int)
    ensures forall w :: w in Chunks(addr, value, id) ==> addr <= w.addr && w.addr + |w.bytes| <= addr + |value|
    decreases |value|
  {
    if value != [] {
      var room := ATOMIC_WRITE_BYTES - addr % ATOMIC_WRITE_BYTES;
      var n := if |value| < room then |value| else room;
      ChunkBounds(addr + n, value[n..], id + 1);
    }
  }

  lemma {:induction false} ChunkBytes(b: Byte, addr: nat, value: seq<Byte>, id: int, a: nat)
    ensures ByteAfter(b, Chunks(addr, value, id), a)
         == if addr <= a < addr + |value| then value[a - addr] else b
    decreases |value|
  {
    if value != [] {
      var room := ATOMIC_WRITE_BYTES - addr % ATOMIC_WRITE_BYTES;
      var n := if |value| < room then |value| else room;
      var w := Write(addr, value[..n], id);
      OneByte(b, w, a);
      ChunkBytes(ByteAfter(b, [w], a), addr + n, value[n..], id + 1, a);
      ByteAfterConcat(b, [w], Chunks(addr + n, value[n..], id + 1), a);
      ByteOfParts(b, addr, value, n, a);
    }
  }

  lemma ByteOfParts(b: Byte, addr: nat, value: seq<Byte>, n: nat, a: nat)
    requires n <= |value|
    ensures (if addr + n <= a < addr + |value| then value[n..][a - addr - n]
             else if addr <= a < addr + n then value[..n][a - addr] else b)
         == if addr <= a < addr + |value| then value[a - addr] else b
  {
  }

  lemma OneByte(b: Byte, w: Write, a: nat)
    ensures ByteAfter(b, [w], a) == if w.Covers(a) then w.bytes[a - w.addr] else b
  {
    assert [w][..0] == [];
  }

  /** Splitting a store does not change what it does to memory. */
  lemma SplitPreservesMemory(img: Image, addr: nat, value: seq<Byte>, id: int)
    ensures PutAll(img, Split(addr, value, id)) == PutAll(img, [Write(addr, value, id)])
  {
    var w := Write(addr, value, id);
    forall a | a in img ensures ByteAfter(img[a], Split(addr, value, id), a) == ByteAfter(img[a], [w], a) {
      assert ByteAfter(img[a], [w][..0], a) == img[a];
      ChunkBytes(img[a], addr, value, id, a);
    }
  }
}
