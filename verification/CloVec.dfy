/** The vector of option structures of the benchmarks: a list of values for a field multiplies the vector. */
module CloVec {
  import opened Memory

  /** One option structure, as its bytes. */
  type Args = seq<Byte>

  // ---- What the operations mean ----

  function Overwrite(s: Args, off: nat, v: seq<Byte>): (r: Args)
    requires off + |v| <= |s|
    ensures |r| == |s| && r[off..off + |v|] == v
    ensures forall k :: 0 <= k < |s| && !(off <= k < off + |v|) ==> r[k] == s[k]
  {
    s[..off] + v + s[off + |v|..]
  }

  /** A field of the structure and the values given for it. */
  datatype Field = Field(off: nat, size: nat, values: seq<seq<Byte>>) {
    /** An empty list leaves the vector alone, as a single value does. */
    function Width(): nat { if values == [] then 1 else |values| }

    ghost predicate Fits(struct: nat) {
      off + size <= struct && forall k :: 0 <= k < |values| ==> size <= |values[k]|
    }

    /** A structure given value k of the list, if there is one. */
    function Set(s: Args, k: int): Args
      requires Fits(|s|)
    {
      if 0 <= k < |values| then Overwrite(s, off, values[k][..size]) else s
    }

    function Of(s: Args): seq<Byte>
      requires off + size <= |s|
    {
      s[off..off + size]
    }
  }

  ghost predicate Sized(v: seq<Args>, size: nat) {
    v != [] && forall i :: 0 <= i < |v| ==> |v[i]| == size
  }

  /** The first n of the structures taken round and round. */
  function Repeated(v: seq<Args>, n: nat): (r: seq<Args>)
    requires v != []
    ensures |r| == n
  {
    if n == 0 then [] else Repeated(v, n - 1) + [v[(n - 1) % |v|]]
  }

  lemma {:induction false} RepeatedAt(v: seq<Args>, n: nat, j: nat)
    requires v != [] && j < n
    ensures Repeated(v, n)[j] == v[j % |v|]
  {
    if j < n - 1 {
      RepeatedAt(v, n - 1, j);
    }
  }

  /** One structure for each old structure and each value, old structures running fastest: its first n. */
  ghost function Enumerated(v: seq<Args>, f: Field, size: nat, n: nat): (r: seq<Args>)
    requires Sized(v, size) && f.Fits(size)
    ensures |r| == n && forall i :: 0 <= i < n ==> |r[i]| == size
  {
    if n == 0 then [] else Enumerated(v, f, size, n - 1) + [f.Set(v[(n - 1) % |v|], (n - 1) / |v|)]
  }

  lemma {:induction false} EnumeratedAt(v: seq<Args>, f: Field, size: nat, n: nat, j: nat)
    requires Sized(v, size) && f.Fits(size) && j < n
    ensures Enumerated(v, f, size, n)[j] == f.Set(v[j % |v|], j / |v|)
  {
    if j < n - 1 {
      EnumeratedAt(v, f, size, n - 1, j);
    }
  }

  ghost function Multiplied(v: seq<Args>, f: Field, size: nat): (r: seq<Args>)
    requires Sized(v, size) && f.Fits(size)
    ensures |r| == |v| * f.Width() && Sized(r, size)
  {
    assert |v| * f.Width() > 0;
    Enumerated(v, f, size, |v| * f.Width())
  }

  /** The vector v after values have been copied into its first m structures, len structures to a value. */
  ghost function SetUpTo(v: seq<Args>, f: Field, size: nat, len: nat, m: nat): (r: seq<Args>)
    requires Sized(v, size) && f.Fits(size) && len > 0 && m <= |v|
    ensures |r| == |v| && Sized(r, size)
  {
    if m == 0 then v
    else var r := SetUpTo(v, f, size, len, m - 1); r[m - 1 := f.Set(r[m - 1], (m - 1) / len)]
  }

  lemma {:induction false} SetUpToAt(v: seq<Args>, f: Field, size: nat, len: nat, m: nat, j: nat)
    requires Sized(v, size) && f.Fits(size) && len > 0 && m <= |v| && j < |v|
    ensures SetUpTo(v, f, size, len, m)[j] == if j < m then f.Set(v[j], j / len) else v[j]
  {
    if m > 0 {
      SetUpToAt(v, f, size, len, m - 1, j);
      var r := SetUpTo(v, f, size, len, m - 1);
      assert j == m - 1 ==> r[j] == v[j];
    }
  }

  lemma {:induction false} RepeatedSized(v: seq<Args>, size: nat, n: nat)
    requires Sized(v, size) && n > 0
    ensures Sized(Repeated(v, n), size)
  {
    if n > 1 {
      RepeatedSized(v, size, n - 1);
    }
  }

  /** Growing and then copying block by block is the product. */
  lemma GrownAndSet(v: seq<Args>, f: Field, size: nat, n: nat)
    requires Sized(v, size) && f.Fits(size) && n > 0
    ensures Sized(Repeated(v, n), size)
    ensures SetUpTo(Repeated(v, n), f, size, |v|, if f.values == [] then 0 else n) == Enumerated(v, f, size, n)
  {
    var m := if f.values == [] then 0 else n;
    RepeatedSized(v, size, n);
    forall j | 0 <= j < n
      ensures SetUpTo(Repeated(v, n), f, size, |v|, m)[j] == Enumerated(v, f, size, n)[j]
    {
      SetUpToAt(Repeated(v, n), f, size, |v|, m, j);
      RepeatedAt(v, n, j);
      EnumeratedAt(v, f, size, n, j);
    }
  }

  /** The two lengths of a run of clo_vec_memcpy_list, and its outcome. */
  lemma ProductOf(v: seq<Args>, f: Field, size: nat) returns (n: nat, m: nat)
    requires Sized(v, size) && f.Fits(size)
    ensures n == |v| * f.Width() && m == |f.values| * |v| && m <= n
    ensures Sized(Repeated(v, n), size) && SetUpTo(Repeated(v, n), f, size, |v|, m) == Multiplied(v, f, size)
  {
    n, m := |v| * f.Width(), |f.values| * |v|;
    Distribute(1, f.Width(), |v|);
    assert m == if f.values == [] then 0 else n;
    GrownAndSet(v, f, size, n);
  }

  lemma OneValue(v: seq<Args>, f: Field, size: nat)
    requires Sized(v, size) && f.Fits(size) && |f.values| == 1
    ensures |v| == |f.values| * |v| && SetUpTo(v, f, size, |v|, |v|) == Multiplied(v, f, size)
  {
    TimesOne(|v|, f.Width());
    TimesOne(|v|, |f.values|);
    RepeatedSelf(v);
    GrownAndSet(v, f, size, |v|);
  }

  // ---- Division ----

  lemma TimesOne(a: nat, b: nat)
    requires b == 1
    ensures a * b == a == b * a
  {
  }

  lemma Associate(a: nat, b: nat, c: nat)
    ensures a * b * c == a * (b * c)
  {
  }

  lemma PlaceBelow(j: nat, p: nat, c: nat, w: nat)
    requires j < p && c < w
    ensures j + c * p < p * w
  {
    Distribute(c + 1, w, p);
  }

  lemma SmallMultiple(x: int, n: int)
    requires -n < x * n < n
    ensures x == 0
  {
  }

  lemma Distribute(a: nat, b: nat, n: nat)
    requires a <= b
    ensures a * n <= b * n
  {
  }

  lemma DivUnique(j: int, n: int, q: int, r: int)
    requires 0 <= r < n && j == q * n + r
    ensures j / n == q && j % n == r
  {
    assert (j / n - q) * n == r - j % n;
    SmallMultiple(j / n - q, n);
  }

  lemma AddMultiple(j: int, n: int, q: int)
    requires n > 0
    ensures (q * n + j) / n == q + j / n && (q * n + j) % n == j % n
  {
    assert q * n + j == (q + j / n) * n + j % n;
    DivUnique(q * n + j, n, q + j / n, j % n);
  }

  lemma DivBelow(j: nat, n: nat, m: nat)
    requires j < n * m
    ensures n > 0 && 0 <= j / n < m && j / n % m == j / n
  {
    SmallModulo(j / n, m);
  }

  lemma Recompose(j: nat, n: nat)
    requires n > 0
    ensures j == j % n + (j / n) * n
  {
  }

  lemma SmallModulo(j: nat, n: nat)
    requires j < n
    ensures j % n == j
  {
  }

  /** A digit does not change when a multiple of a higher weight is taken away. */
  lemma DigitOfRemainder(j: nat, p: nat, l: nat, q: nat)
    requires p > 0 && l > 0 && q > 0
    ensures p * l * q > 0 && (j % (p * l * q)) / p % l == j / p % l
  {
    var n := p * l * q;
    assert n > 0;
    var k, r := j / n, j % n;
    assert j == (k * q * l) * p + r by { assert k * n == (k * q * l) * p; }
    AddMultiple(r, p, k * q * l);
    AddMultiple(r / p, l, k * q);
  }

  lemma RepeatedSelf(v: seq<Args>)
    requires v != []
    ensures Repeated(v, |v|) == v
  {
    forall j | 0 <= j < |v| ensures Repeated(v, |v|)[j] == v[j] {
      RepeatedAt(v, |v|, j);
      DivUnique(j, |v|, 0, j);
    }
  }

  /** Copying from the grown vector takes the same structure as from the old one. */
  lemma RepeatedNext(v: seq<Args>, i: nat, k: nat)
    requires v != [] && k == i % |v|
    ensures k < |v| + i && Repeated(v, |v| + i + 1) == Repeated(v, |v| + i) + [Repeated(v, |v| + i)[k]]
  {
    AddMultiple(i, |v|, 1);
    RepeatedAt(v, |v| + i, k);
    DivUnique(k, |v|, 0, k);
  }

  // ---- The vector ----

  /** memcpy into one structure. */
  method CopyInto(a: array<Byte>, off: nat, v: seq<Byte>)
    requires off + |v| <= a.Length
    modifies a
    ensures a[..] == Overwrite(old(a[..]), off, v)
  {
    for i := 0 to |v|
      invariant forall k :: 0 <= k < a.Length ==> a[k] == if off <= k < off + i then v[k - off] else old(a[k])
    {
      a[off + i] := v[i];
    }
    ghost var r := Overwrite(old(a[..]), off, v);
    forall k | 0 <= k < a.Length ensures a[..][k] == r[k] {
      if off <= k < off + |v| {
        assert r[k] == r[off..off + |v|][k - off];
      }
    }
  }

  method CopyOf(source: array<Byte>) returns (a: array<Byte>)
    ensures fresh(a) && a[..] == source[..]
  {
    a := new Byte[source.Length];
    for i := 0 to source.Length
      invariant a[..i] == source[..i]
    {
      a[i] := source[i];
    }
  }

  class CloVector {
    const size: nat
    var args: seq<array<Byte>>
    ghost var repr: set<array<Byte>>

    ghost predicate Valid()
      reads this, repr
    {
      && args != []
      && (forall i :: 0 <= i < |args| ==> args[i] in repr && args[i].Length == size)
      && (forall i, j :: 0 <= i < j < |args| ==> args[i] != args[j])
    }

    ghost function View(): (v: seq<Args>)
      requires Valid()
      reads this, repr
      ensures |v| == |args| && forall i :: 0 <= i < |v| ==> v[i] == args[i][..]
    {
      seq(|args|, i requires Valid() && 0 <= i < |args| reads this, repr => args[i][..])
    }

    /** One zeroed structure. */
    constructor (size: nat)
      ensures Valid() && this.size == size && fresh(repr) && View() == [seq(size, _ => 0)]
    {
      this.size := size;
      var first := new Byte[size](_ => 0);
      args, repr := [first], {first};
      new;
      assert first[..] == seq(size, _ => 0);
    }

    method AppendCopy(k: nat)
      requires Valid() && k < |args|
      modifies this
      ensures Valid() && View() == old(View()) + [old(View()[k])]
      ensures fresh(repr - old(repr))
    {
      var a := CopyOf(args[k]);
      args, repr := args + [a], repr + {a};
    }

    method RepeatNext(ghost v: seq<Args>, n: nat, i: nat)
      requires Valid() && 0 < n == |v| && View() == Repeated(v, n + i)
      modifies this
      ensures Valid() && View() == Repeated(v, n + i + 1)
      ensures fresh(repr - old(repr))
    {
      var k := i % n;
      RepeatedNext(v, i, k);
      AppendCopy(k);
    }

    /** clo_vec_grow: the new structures repeat the old ones in turn. */
    method Grow(newLen: nat)
      requires Valid() && newLen >= |args|
      modifies this
      ensures Valid() && View() == Repeated(old(View()), newLen)
      ensures fresh(repr - old(repr))
    {
      ghost var v := View();
      var n := |args|;
      RepeatedSelf(v);
      for i := 0 to newLen - n
        invariant Valid() && View() == Repeated(v, n + i)
        invariant fresh(repr - old(repr))
      {
        RepeatNext(v, n, i);
      }
    }

    /** memcpy of a value into structure i. */
    method Write(i: nat, off: nat, v: seq<Byte>)
      requires Valid() && i < |args| && off + |v| <= size
      modifies repr
      ensures Valid() && View() == old(View())[i := Overwrite(old(View()[i]), off, v)]
    {
      CopyInto(args[i], off, v);
    }

    /** The inner loop of clo_vec_memcpy_list: one value goes to len consecutive structures. */
    method SetBlock(ghost v: seq<Args>, f: Field, len: nat, k: nat)
      requires Valid() && f.Fits(size) && len > 0 && k < |f.values| && (k + 1) * len <= |v|
      requires Sized(v, size) && View() == SetUpTo(v, f, size, len, k * len)
      modifies repr
      ensures Valid() && View() == SetUpTo(v, f, size, len, (k + 1) * len)
    {
      var end := (k + 1) * len;
      assert end == k * len + len;
      for i := k * len to end
        invariant Valid() && View() == SetUpTo(v, f, size, len, i)
      {
        DivUnique(i, len, k, i - k * len);
        Write(i, f.off, f.values[k][..f.size]);
      }
    }

    /** The outer loop: the values in turn. */
    method SetBlocks(f: Field, len: nat, ghost m: nat)
      requires Valid() && f.Fits(size) && len > 0 && m == |f.values| * len && m <= |args|
      modifies repr
      ensures Valid() && Sized(old(View()), size) && View() == SetUpTo(old(View()), f, size, len, m)
    {
      ghost var v := View();
      for k := 0 to |f.values|
        invariant Valid() && k * len <= |v| && View() == SetUpTo(v, f, size, len, k * len)
      {
        Distribute(k + 1, |f.values|, len);
        SetBlock(v, f, len, k);
      }
    }

    /** The vector has len structures for each value. */
    method GrowFor(f: Field, ghost n: nat)
      requires Valid() && n == |args| * f.Width()
      modifies this
      ensures Valid() && View() == Repeated(old(View()), n) && fresh(repr - old(repr))
    {
      RepeatedSelf(View());
      if |f.values| > 1 {
        Distribute(1, |f.values|, |args|);
        Grow(|args| * |f.values|);
      }
    }

    /** clo_vec_memcpy: the value goes to every structure. */
    method Memcpy(off: nat, n: nat, value: seq<Byte>) returns (ret: int)
      requires Valid() && n <= |value|
      modifies repr
      ensures Valid() && ret == if off + n > size then -1 else 0
      ensures ret == 0 ==> Sized(old(View()), size) && View() == Multiplied(old(View()), Field(off, n, [value]), size)
      ensures ret != 0 ==> View() == old(View())
    {
      if off + n > size {
        return -1;
      }
      var f := Field(off, n, [value]);
      OneValue(View(), f, size);
      SetBlocks(f, |args|, |args|);
      ret := 0;
    }

    /** clo_vec_memcpy_list. */
    method MemcpyList(f: Field) returns (ret: int)
      requires Valid() && forall k :: 0 <= k < |f.values| ==> f.size <= |f.values[k]|
      modifies this, repr
      ensures Valid() && fresh(repr - old(repr))
      ensures ret == if f.off + f.size > size then -1 else 0
      ensures ret == 0 ==> Sized(old(View()), size) && View() == Multiplied(old(View()), f, size)
      ensures ret != 0 ==> View() == old(View())
    {
      if f.off + f.size > size {
        return -1;
      }
      var len := |args|;
      ghost var n, m := ProductOf(View(), f, size);
      GrowFor(f, n);
      SetBlocks(f, len, m);
      ret := 0;
    }
  }

  // ---- A run of lists: the vector is their Cartesian product ----

  ghost predicate FieldsFit(fields: seq<Field>, size: nat) {
    forall i :: 0 <= i < |fields| ==> fields[i].Fits(size)
  }

  ghost predicate Apart(f: Field, g: Field) { f.off + f.size <= g.off || g.off + g.size <= f.off }

  ghost predicate AllApart(fields: seq<Field>) {
    forall i, j :: 0 <= i < j < |fields| ==> Apart(fields[i], fields[j])
  }

  ghost function Count(fields: seq<Field>): (n: nat)
    ensures n > 0
  {
    if fields == [] then 1
    else
      var n := |fields| - 1;
      assert Count(fields[..n]) * fields[n].Width() > 0;
      Count(fields[..n]) * fields[n].Width()
  }

  /** The vector after the lists have been applied in turn to a new one. */
  ghost function Applied(fields: seq<Field>, size: nat): (v: seq<Args>)
    requires FieldsFit(fields, size)
    ensures |v| == Count(fields) && Sized(v, size)
  {
    if fields == [] then [seq(size, _ => 0)]
    else Multiplied(Applied(fields[..|fields| - 1], size), fields[|fields| - 1], size)
  }

  lemma AppliedNext(fields: seq<Field>, k: nat, size: nat)
    requires k < |fields| && FieldsFit(fields[..k], size) && fields[k].Fits(size)
    ensures FieldsFit(fields[..k + 1], size)
    ensures Applied(fields[..k + 1], size) == Multiplied(Applied(fields[..k], size), fields[k], size)
  {
    assert fields[..k + 1][..k] == fields[..k];
  }

  /** The parser's loop over the given options: a new vector, the lists in turn, and a stop at the first failure. */
  method ApplyLists(fields: seq<Field>, size: nat) returns (ret: int, vec: CloVector)
    requires forall i :: 0 <= i < |fields| ==> fields[i].Fits(fields[i].off + fields[i].size)
    ensures vec.Valid() && vec.size == size
    ensures ret == 0 <==> FieldsFit(fields, size)
    ensures ret == 0 ==> vec.View() == Applied(fields, size)
  {
    vec := new CloVector(size);
    ret := 0;
    for k := 0 to |fields|
      invariant vec.Valid() && vec.size == size && fresh(vec) && fresh(vec.repr)
      invariant ret == 0 && FieldsFit(fields[..k], size) && vec.View() == Applied(fields[..k], size)
    {
      ret := vec.MemcpyList(fields[k]);
      if ret != 0 {
        return;
      }
      AppliedNext(fields, k, size);
    }
    assert fields[..|fields|] == fields;
  }

  /** Which value of list i entry j holds. */
  ghost function Digit(fields: seq<Field>, j: nat, i: nat): (d: nat)
    requires i < |fields|
    ensures d < fields[i].Width()
  {
    j / Count(fields[..i]) % fields[i].Width()
  }

  /** The value of a list, or the zero bytes of an untouched field. */
  ghost function ValueOf(f: Field, k: nat): seq<Byte>
    requires k < f.Width() && f.Fits(f.off + f.size)
  {
    if f.values == [] then seq(f.size, _ => 0) else f.values[k][..f.size]
  }

  lemma {:induction false} CountSplit(fields: seq<Field>, i: nat)
    requires i < |fields|
    ensures Count(fields) == Count(fields[..i]) * fields[i].Width() * Count(fields[i + 1..])
  {
    var n := |fields| - 1;
    var front, rest := fields[..n], fields[i + 1..];
    if i == n {
      assert rest == [];
    } else {
      CountSplit(front, i);
      assert front[..i] == fields[..i];
      assert rest[..|rest| - 1] == front[i + 1..];
      Associate(Count(fields[..i]) * fields[i].Width(), Count(front[i + 1..]), fields[n].Width());
    }
  }

  /** Lists applied later do not change which value of list i an entry holds. */
  lemma DigitOfFront(fields: seq<Field>, j: nat, i: nat)
    requires i < |fields| - 1
    ensures Digit(fields[..|fields| - 1], j % Count(fields[..|fields| - 1]), i) == Digit(fields, j, i)
  {
    var front := fields[..|fields| - 1];
    CountSplit(front, i);
    assert front[..i] == fields[..i];
    DigitOfRemainder(j, Count(front[..i]), front[i].Width(), Count(front[i + 1..]));
  }

  lemma LastDigit(fields: seq<Field>, j: nat)
    requires fields != [] && j < Count(fields)
    ensures Digit(fields, j, |fields| - 1) == j / Count(fields[..|fields| - 1])
  {
    var n := |fields| - 1;
    DivBelow(j, Count(fields[..n]), fields[n].Width());
  }

  lemma SetOwn(f: Field, s: Args, k: nat)
    requires f.Fits(|s|) && k < |f.values|
    ensures f.Of(f.Set(s, k)) == f.values[k][..f.size]
  {
  }

  lemma SetOther(f: Field, g: Field, s: Args, k: nat)
    requires f.Fits(|s|) && g.Fits(|s|) && Apart(f, g)
    ensures |f.Set(s, k)| == |s| && g.Of(f.Set(s, k)) == g.Of(s)
  {
  }

  /** What the last list does to an entry. */
  lemma EntryOfLast(fields: seq<Field>, size: nat, j: nat)
    requires FieldsFit(fields, size) && fields != [] && j < Count(fields)
    ensures var n := |fields| - 1; var p := Count(fields[..n]);
            && 0 <= j / p < fields[n].Width()
            && Applied(fields, size)[j] == fields[n].Set(Applied(fields[..n], size)[j % p], j / p)
  {
    var n := |fields| - 1;
    DivBelow(j, Count(fields[..n]), fields[n].Width());
    EnumeratedAt(Applied(fields[..n], size), fields[n], size, Count(fields), j);
  }

  /** An untouched field still holds zeros after any lists for other fields. */
  lemma {:induction false} UntouchedField(fields: seq<Field>, f: Field, size: nat, j: nat)
    requires FieldsFit(fields, size) && f.Fits(size) && j < Count(fields)
    requires forall i :: 0 <= i < |fields| ==> Apart(fields[i], f)
    ensures f.Of(Applied(fields, size)[j]) == seq(f.size, _ => 0)
  {
    if fields != [] {
      var n := |fields| - 1;
      var front, p := Applied(fields[..n], size), Count(fields[..n]);
      EntryOfLast(fields, size, j);
      UntouchedField(fields[..n], f, size, j % p);
      SetOther(fields[n], f, front[j % p], j / p);
    }
  }

  lemma LastFieldHolds(fields: seq<Field>, size: nat, j: nat)
    requires FieldsFit(fields, size) && AllApart(fields) && fields != [] && j < Count(fields)
    ensures var n := |fields| - 1;
            fields[n].Of(Applied(fields, size)[j]) == ValueOf(fields[n], Digit(fields, j, n))
  {
    var n := |fields| - 1;
    var p := Count(fields[..n]);
    EntryOfLast(fields, size, j);
    LastDigit(fields, j);
    if fields[n].values == [] {
      UntouchedField(fields[..n], fields[n], size, j % p);
    } else {
      SetOwn(fields[n], Applied(fields[..n], size)[j % p], j / p);
    }
  }

  /** Every entry holds, in every field, the value its mixed-radix digit names. */
  lemma {:induction false} EntryHoldsDigits(fields: seq<Field>, size: nat, j: nat, i: nat)
    requires FieldsFit(fields, size) && AllApart(fields) && j < Count(fields) && i < |fields|
    ensures fields[i].Of(Applied(fields, size)[j]) == ValueOf(fields[i], Digit(fields, j, i))
  {
    var n := |fields| - 1;
    if i == n {
      LastFieldHolds(fields, size, j);
    } else {
      var p := Count(fields[..n]);
      EntryOfLast(fields, size, j);
      SetOther(fields[n], fields[i], Applied(fields[..n], size)[j % p], j / p);
      EntryHoldsDigits(fields[..n], size, j % p, i);
      DigitOfFront(fields, j, i);
    }
  }

  // ---- Every combination, once ----

  ghost predicate Choice(fields: seq<Field>, c: seq<nat>) {
    |c| == |fields| && forall i :: 0 <= i < |c| ==> c[i] < fields[i].Width()
  }

  ghost function IndexOf(fields: seq<Field>, c: seq<nat>): (j: nat)
    requires Choice(fields, c)
    ensures j < Count(fields)
  {
    if fields == [] then 0
    else
      var n := |fields| - 1;
      var p := Count(fields[..n]);
      PlaceBelow(IndexOf(fields[..n], c[..n]), p, c[n], fields[n].Width());
      IndexOf(fields[..n], c[..n]) + c[n] * p
  }

  lemma {:induction false} DigitsOfIndex(fields: seq<Field>, c: seq<nat>, i: nat)
    requires Choice(fields, c) && i < |fields|
    ensures Digit(fields, IndexOf(fields, c), i) == c[i]
  {
    var n := |fields| - 1;
    var p, j := Count(fields[..n]), IndexOf(fields, c);
    DivUnique(j, p, c[n], IndexOf(fields[..n], c[..n]));
    if i < n {
      DigitOfFront(fields, j, i);
      DigitsOfIndex(fields[..n], c[..n], i);
    } else {
      LastDigit(fields, j);
    }
  }

  ghost predicate HasDigits(fields: seq<Field>, c: seq<nat>, j: nat)
    requires Choice(fields, c)
  {
    forall i :: 0 <= i < |fields| ==> Digit(fields, j, i) == c[i]
  }

  lemma {:induction false} IndexFromDigits(fields: seq<Field>, c: seq<nat>, j: nat)
    requires Choice(fields, c) && j < Count(fields) && HasDigits(fields, c, j)
    ensures j == IndexOf(fields, c)
  {
    if fields != [] {
      var n := |fields| - 1;
      var p := Count(fields[..n]);
      forall i | 0 <= i < n ensures Digit(fields[..n], j % p, i) == c[..n][i] {
        DigitOfFront(fields, j, i);
      }
      IndexFromDigits(fields[..n], c[..n], j % p);
      LastDigit(fields, j);
      assert c[n] == j / p;
      Recompose(j, p);
    }
  }

  /** Entry j has the chosen value in every field. */
  ghost predicate Holds(fields: seq<Field>, size: nat, c: seq<nat>, j: nat)
    requires FieldsFit(fields, size) && Choice(fields, c) && j < Count(fields)
  {
    forall i :: 0 <= i < |fields| ==> fields[i].Of(Applied(fields, size)[j]) == ValueOf(fields[i], c[i])
  }

  /** Each choice of one value per list has its place in the vector, and no other place is made from that choice. */
  lemma EveryCombinationOnce(fields: seq<Field>, size: nat, c: seq<nat>)
    requires FieldsFit(fields, size) && AllApart(fields) && Choice(fields, c)
    ensures IndexOf(fields, c) < |Applied(fields, size)| == Count(fields) && Holds(fields, size, c, IndexOf(fields, c))
    ensures forall j :: 0 <= j < Count(fields) && HasDigits(fields, c, j) ==> j == IndexOf(fields, c)
  {
    forall i | 0 <= i < |fields|
      ensures fields[i].Of(Applied(fields, size)[IndexOf(fields, c)]) == ValueOf(fields[i], c[i])
    {
      DigitsOfIndex(fields, c, i);
      EntryHoldsDigits(fields, size, IndexOf(fields, c), i);
    }
    forall j | 0 <= j < Count(fields) && HasDigits(fields, c, j)
      ensures j == IndexOf(fields, c)
    {
      IndexFromDigits(fields, c, j);
    }
  }

  /** No value occurs twice in the list, as far as the field keeps it. */
  ghost predicate NoRepeats(f: Field, size: nat)
    requires f.Fits(size)
  {
    forall a, b :: 0 <= a < b < |f.values| ==> f.values[a][..f.size] != f.values[b][..f.size]
  }

  ghost predicate AllNoRepeats(fields: seq<Field>, size: nat)
    requires FieldsFit(fields, size)
  {
    forall i :: 0 <= i < |fields| ==> NoRepeats(fields[i], size)
  }

  /** No content is in two places. */
  ghost predicate ContentOnce(fields: seq<Field>, size: nat)
    requires FieldsFit(fields, size)
  {
    forall c, j :: Choice(fields, c) && 0 <= j < Count(fields) && Holds(fields, size, c, j) ==> j == IndexOf(fields, c)
  }

  /** Each combination of values is the content of exactly one place if and only if no list repeats a value. */
  lemma ContentOnceIff(fields: seq<Field>, size: nat)
    requires FieldsFit(fields, size) && AllApart(fields)
    ensures ContentOnce(fields, size) <==> AllNoRepeats(fields, size)
  {
    if AllNoRepeats(fields, size) {
      forall c, j | Choice(fields, c) && 0 <= j < Count(fields) && Holds(fields, size, c, j)
        ensures j == IndexOf(fields, c)
      {
        ContentGivesDigits(fields, size, c, j);
        IndexFromDigits(fields, c, j);
      }
    } else {
      var i :| 0 <= i < |fields| && !NoRepeats(fields[i], size);
      RepeatedContent(fields, size, i);
    }
  }

  lemma ContentGivesDigits(fields: seq<Field>, size: nat, c: seq<nat>, j: nat)
    requires FieldsFit(fields, size) && AllApart(fields) && AllNoRepeats(fields, size)
    requires Choice(fields, c) && j < Count(fields) && Holds(fields, size, c, j)
    ensures HasDigits(fields, c, j)
  {
    forall i | 0 <= i < |fields| ensures Digit(fields, j, i) == c[i] {
      EntryHoldsDigits(fields, size, j, i);
      assert NoRepeats(fields[i], size);
    }
  }

  lemma RepeatedContent(fields: seq<Field>, size: nat, i: nat)
    requires FieldsFit(fields, size) && AllApart(fields) && i < |fields| && !NoRepeats(fields[i], size)
    ensures !ContentOnce(fields, size)
  {
    var f := fields[i];
    var a, b :| 0 <= a < b < |f.values| && f.values[a][..f.size] == f.values[b][..f.size];
    var c: seq<nat> := seq(|fields|, k => if k == i then a else 0);
    var d: seq<nat> := seq(|fields|, k => if k == i then b else 0);
    var j := IndexOf(fields, d);
    EveryCombinationOnce(fields, size, d);
    assert Holds(fields, size, c, j) by {
      forall k | 0 <= k < |fields| ensures fields[k].Of(Applied(fields, size)[j]) == ValueOf(fields[k], c[k]) {
        assert ValueOf(fields[k], c[k]) == ValueOf(fields[k], d[k]);
      }
    }
    DigitsOfIndex(fields, c, i);
    DigitsOfIndex(fields, d, i);
  }
}
