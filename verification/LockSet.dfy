/** The locks held along a call, as the race analysis keeps them, and what that means. */
module LockSet {
  import opened Memory
  import opened TraceOps

  predicate Overlaps(lock: nat, addr: nat) { RangeCmp(lock, lock + 8, addr, addr + 8) == 0 }

  /** Locks are words: they overlap if and only if they share a byte. */
  lemma OverlapsIff(lock: nat, addr: nat)
    ensures Overlaps(lock, addr) <==> exists b: nat :: Shared(lock, addr, b)
  {
    if Overlaps(lock, addr) {
      assert Shared(lock, addr, if lock < addr then addr else lock);
    }
  }

  predicate Shared(lock: nat, addr: nat, b: nat) { lock <= b < lock + 8 && addr <= b < addr + 8 }

  /** The last lock that overlaps the unlocked one is released. */
  function Release(locks: seq<nat>, addr: nat): seq<nat> {
    if locks == [] then []
    else if Overlaps(locks[|locks| - 1], addr) then locks[..|locks| - 1]
    else Release(locks[..|locks| - 1], addr) + [locks[|locks| - 1]]
  }

  /** `i` is the largest index of an overlapping lock. */
  ghost predicate LastOverlap(locks: seq<nat>, addr: nat, i: nat) {
    i < |locks| && Overlaps(locks[i], addr) && forall j :: i < j < |locks| ==> !Overlaps(locks[j], addr)
  }

  lemma {:induction false} ReleaseRemoves(locks: seq<nat>, addr: nat, i: nat)
    requires LastOverlap(locks, addr, i)
    ensures Release(locks, addr) == locks[..i] + locks[i + 1..]
  {
    var n := |locks| - 1;
    if i < n {
      ReleaseRemoves(locks[..n], addr, i);
      assert locks[..n][..i] == locks[..i] && locks[..n][i + 1..] + [locks[n]] == locks[i + 1..];
    }
  }

  lemma {:induction false} ReleaseKeeps(locks: seq<nat>, addr: nat)
    requires forall i :: 0 <= i < |locks| ==> !Overlaps(locks[i], addr)
    ensures Release(locks, addr) == locks
  {
    if locks != [] {
      ReleaseKeeps(locks[..|locks| - 1], addr);
    }
  }

  /** Exactly the overlapping lock with the largest index goes; without one, none does. */
  method ReleaseLock(locks: seq<nat>, addr: nat) returns (r: seq<nat>)
    ensures forall i: nat :: LastOverlap(locks, addr, i) ==> r == locks[..i] + locks[i + 1..]
    ensures (forall i :: 0 <= i < |locks| ==> !Overlaps(locks[i], addr)) ==> r == locks
    ensures r == Release(locks, addr)
  {
    var i := |locks|;
    while i > 0
      invariant 0 <= i <= |locks| && forall j :: i <= j < |locks| ==> !Overlaps(locks[j], addr)
    {
      i := i - 1;
      if Overlaps(locks[i], addr) {
        ReleaseRemoves(locks, addr, i);
        return locks[..i] + locks[i + 1..];
      }
    }
    ReleaseKeeps(locks, addr);
    r := locks;
  }

  /** The locks held after these operations. */
  function Held(ops: seq<Op>): seq<nat> {
    if ops == [] then []
    else
      var locks, op := Held(ops[..|ops| - 1]), ops[|ops| - 1];
      if op.Lock? then locks + [op.addr] else if op.UnLock? then Release(locks, op.addr) else locks
  }

  /** An unlock with no lock held fails the assertion of the source. */
  predicate Fails(ops: seq<Op>) {
    ops != [] &&
    var n := |ops| - 1;
    (ops[n].UnLock? && Held(ops[..n]) == []) || Fails(ops[..n])
  }

  lemma {:induction false} FailsStays(ops: seq<Op>, n: nat)
    requires n <= |ops| && Fails(ops[..n])
    ensures Fails(ops)
    decreases |ops|
  {
    if n == |ops| {
      assert ops[..n] == ops;
    } else {
      assert ops[..|ops| - 1][..n] == ops[..n];
      FailsStays(ops[..|ops| - 1], n);
    }
  }

  // ---- Which locks are held, by position ----

  /** The lock taken at `j` is held before `p`: no unlock in between releases it. */
  ghost predicate HeldAt(ops: seq<Op>, j: nat, p: nat)
    decreases p, 0
  {
    j < p <= |ops| && ops[j].Lock? && forall u :: j < u < p ==> !Releases(ops, u, j)
  }

  /** The unlock at `u` releases the lock taken at `j`: the latest held one that it overlaps. */
  ghost predicate Releases(ops: seq<Op>, u: nat, j: nat)
    decreases u, 1
  {
    && j < u < |ops| && ops[u].UnLock? && HeldAt(ops, j, u) && Overlaps(ops[j].addr, ops[u].addr)
    && forall k :: j < k < u && HeldAt(ops, k, u) ==> !Overlaps(ops[k].addr, ops[u].addr)
  }

  lemma HeldNext(ops: seq<Op>, j: nat, p: nat)
    requires p < |ops|
    ensures HeldAt(ops, j, p + 1) <==> if j == p then ops[p].Lock? else HeldAt(ops, j, p) && !Releases(ops, p, j)
  {
  }

  /** The positions of the held locks, in order. */
  ghost function HeldPos(ops: seq<Op>, p: nat): (ps: seq<nat>)
    requires p <= |ops|
    ensures AllLocks(ops, ps) && Below(ps, p)
  {
    if p == 0 then []
    else
      var front, op := HeldPos(ops, p - 1), ops[p - 1];
      if op.Lock? then front + [p - 1] else if op.UnLock? then ReleasePos(ops, front, op.addr) else front
  }

  ghost predicate Below(ps: seq<nat>, p: nat) { forall i :: 0 <= i < |ps| ==> ps[i] < p }

  ghost predicate AllLocks(ops: seq<Op>, ps: seq<nat>) {
    forall i :: 0 <= i < |ps| ==> ps[i] < |ops| && ops[ps[i]].Lock?
  }

  ghost function ReleasePos(ops: seq<Op>, ps: seq<nat>, addr: nat): (r: seq<nat>)
    requires AllLocks(ops, ps)
    ensures AllLocks(ops, r) && forall p :: Below(ps, p) ==> Below(r, p)
    ensures forall i :: 0 <= i < |r| ==> r[i] in ps
  {
    if ps == [] then []
    else
      var n := |ps| - 1;
      if Overlaps(ops[ps[n]].addr, addr) then ps[..n] else ReleasePos(ops, ps[..n], addr) + [ps[n]]
  }

  ghost function Addrs(ops: seq<Op>, ps: seq<nat>): seq<nat>
    requires AllLocks(ops, ps)
  {
    seq(|ps|, i requires 0 <= i < |ps| => ops[ps[i]].addr)
  }

  ghost predicate Ascending(ps: seq<nat>) { forall i, j :: 0 <= i < j < |ps| ==> ps[i] < ps[j] }

  lemma {:induction false} ReleaseAddrs(ops: seq<Op>, ps: seq<nat>, addr: nat)
    requires AllLocks(ops, ps)
    ensures AllLocks(ops, ReleasePos(ops, ps, addr))
    ensures Addrs(ops, ReleasePos(ops, ps, addr)) == Release(Addrs(ops, ps), addr)
  {
    if ps != [] {
      var n := |ps| - 1;
      ReleaseAddrs(ops, ps[..n], addr);
      assert Addrs(ops, ps)[..n] == Addrs(ops, ps[..n]);
    }
  }

  /** `j` is the last position of the list that overlaps. */
  ghost predicate LastIn(ops: seq<Op>, ps: seq<nat>, addr: nat, j: nat)
    requires AllLocks(ops, ps)
  {
    && j in ps && Overlaps(ops[j].addr, addr)
    && forall i :: 0 <= i < |ps| && j < ps[i] ==> !Overlaps(ops[ps[i]].addr, addr)
  }

  lemma {:induction false} ReleaseAscends(ops: seq<Op>, ps: seq<nat>, addr: nat)
    requires AllLocks(ops, ps) && Ascending(ps)
    ensures Ascending(ReleasePos(ops, ps, addr))
  {
    if ps != [] {
      var n := |ps| - 1;
      ReleaseAscends(ops, ps[..n], addr);
      assert Below(ps[..n], ps[n]);
    }
  }

  lemma {:induction false} ReleaseMembers(ops: seq<Op>, ps: seq<nat>, addr: nat, j: nat)
    requires AllLocks(ops, ps) && Ascending(ps)
    ensures j in ReleasePos(ops, ps, addr) <==> j in ps && !LastIn(ops, ps, addr, j)
  {
    if ps != [] {
      var n := |ps| - 1;
      assert ps == ps[..n] + [ps[n]];
      if !Overlaps(ops[ps[n]].addr, addr) {
        ReleaseMembers(ops, ps[..n], addr, j);
        LastInFront(ops, ps, addr, j);
      }
    }
  }

  lemma LastInFront(ops: seq<Op>, ps: seq<nat>, addr: nat, j: nat)
    requires ps != [] && AllLocks(ops, ps) && Ascending(ps) && !Overlaps(ops[ps[|ps| - 1]].addr, addr)
    ensures LastIn(ops, ps, addr, j) <==> LastIn(ops, ps[..|ps| - 1], addr, j)
  {
    var front := ps[..|ps| - 1];
    assert ps == front + [ps[|ps| - 1]];
    if LastIn(ops, front, addr, j) {
      forall i | 0 <= i < |ps| && j < ps[i] ensures !Overlaps(ops[ps[i]].addr, addr) {
        if i < |front| {
          assert front[i] == ps[i];
        }
      }
    }
  }

  lemma {:induction false} HeldAscends(ops: seq<Op>, p: nat)
    requires p <= |ops|
    ensures Ascending(HeldPos(ops, p))
  {
    if p > 0 {
      HeldAscends(ops, p - 1);
      if ops[p - 1].UnLock? {
        ReleaseAscends(ops, HeldPos(ops, p - 1), ops[p - 1].addr);
      }
    }
  }

  lemma AddrsNext(ops: seq<Op>, ps: seq<nat>, p: nat)
    requires AllLocks(ops, ps) && p < |ops| && ops[p].Lock?
    ensures Addrs(ops, ps + [p]) == Addrs(ops, ps) + [ops[p].addr]
  {
  }

  /** The list of the analysis has the addresses of these locks. */
  lemma {:induction false} HeldIs(ops: seq<Op>, p: nat)
    requires p <= |ops|
    ensures Held(ops[..p]) == Addrs(ops, HeldPos(ops, p))
  {
    if p > 0 {
      HeldIs(ops, p - 1);
      assert ops[..p][..p - 1] == ops[..p - 1];
      if ops[p - 1].Lock? {
        AddrsNext(ops, HeldPos(ops, p - 1), p - 1);
      } else if ops[p - 1].UnLock? {
        ReleaseAddrs(ops, HeldPos(ops, p - 1), ops[p - 1].addr);
      }
    }
  }

  /** And these are the held ones. */
  lemma {:induction false} HeldMember(ops: seq<Op>, p: nat, j: nat)
    requires p <= |ops|
    ensures j in HeldPos(ops, p) <==> HeldAt(ops, j, p)
    decreases p
  {
    if p > 0 {
      var u := p - 1;
      HeldMember(ops, u, j);
      HeldNext(ops, j, u);
      if ops[u].UnLock? {
        HeldAscends(ops, u);
        ReleaseMembers(ops, HeldPos(ops, u), ops[u].addr, j);
        forall k: nat | k < u ensures k in HeldPos(ops, u) <==> HeldAt(ops, k, u) {
          HeldMember(ops, u, k);
        }
        LastIsReleased(ops, u, j);
      }
    }
  }

  lemma LastIsReleased(ops: seq<Op>, u: nat, j: nat)
    requires u < |ops| && ops[u].UnLock?
    requires forall k: nat :: k < u ==> (k in HeldPos(ops, u) <==> HeldAt(ops, k, u))
    ensures LastIn(ops, HeldPos(ops, u), ops[u].addr, j) <==> Releases(ops, u, j)
  {
    var ps := HeldPos(ops, u);
    if Releases(ops, u, j) {
      forall i | 0 <= i < |ps| && j < ps[i] ensures !Overlaps(ops[ps[i]].addr, ops[u].addr) {
        assert ps[i] in ps;
      }
    }
    if LastIn(ops, ps, ops[u].addr, j) {
      forall k | j < k < u && HeldAt(ops, k, u) ensures !Overlaps(ops[k].addr, ops[u].addr) {
        assert k in ps;
      }
    }
  }

  /** An address is in the list if and only if a lock of it is held. */
  lemma HeldAddress(ops: seq<Op>, p: nat, a: nat)
    requires p <= |ops|
    ensures a in Held(ops[..p]) <==> exists j: nat :: HeldAt(ops, j, p) && ops[j].addr == a
  {
    HeldIs(ops, p);
    var ps := HeldPos(ops, p);
    if a in Held(ops[..p]) {
      var i :| 0 <= i < |ps| && Addrs(ops, ps)[i] == a;
      HeldMember(ops, p, ps[i]);
    }
    if j: nat :| HeldAt(ops, j, p) && ops[j].addr == a {
      HeldMember(ops, p, j);
      var i :| 0 <= i < |ps| && ps[i] == j;
      assert Addrs(ops, ps)[i] == a;
    }
  }

  ghost predicate NoLockHeld(ops: seq<Op>, p: nat) { forall j: nat :: !HeldAt(ops, j, p) }

  lemma NoneHeld(ops: seq<Op>, p: nat)
    requires p <= |ops|
    ensures Held(ops[..p]) == [] <==> NoLockHeld(ops, p)
  {
    HeldIs(ops, p);
    if HeldPos(ops, p) == [] {
      forall j: nat ensures !HeldAt(ops, j, p) {
        HeldMember(ops, p, j);
      }
    } else {
      HeldMember(ops, p, HeldPos(ops, p)[0]);
    }
  }

  /** The analysis fails exactly at an unlock when no lock is held. */
  lemma {:induction false} FailsIff(ops: seq<Op>, n: nat)
    requires n <= |ops|
    ensures Fails(ops[..n]) <==> exists u :: 0 <= u < n && ops[u].UnLock? && NoLockHeld(ops, u)
  {
    if n > 0 {
      FailsIff(ops, n - 1);
      assert ops[..n][..n - 1] == ops[..n - 1];
      NoneHeld(ops, n - 1);
    }
  }

  // ---- Unlocks that can mean only one lock ----

  /** No unlock that overlaps the lock taken at `j` has come before `p`. */
  ghost predicate StillHeld(ops: seq<Op>, j: nat, p: nat) {
    j < p <= |ops| && ops[j].Lock? && forall u :: j < u < p && ops[u].UnLock? ==> !Overlaps(ops[j].addr, ops[u].addr)
  }

  /** No unlock before `p` overlaps two locks that are still held. */
  ghost predicate Unambiguous(ops: seq<Op>, p: nat) {
    forall u: nat, j: nat, k: nat :: u < p && Meant(ops, j, u) && Meant(ops, k, u) ==> j == k
  }

  /** The unlock at `u` overlaps the lock taken at `j`, which is still held. */
  ghost predicate Meant(ops: seq<Op>, j: nat, u: nat) {
    u < |ops| && ops[u].UnLock? && StillHeld(ops, j, u) && Overlaps(ops[j].addr, ops[u].addr)
  }

  lemma OnlyOneMeant(ops: seq<Op>, j: nat, k: nat, u: nat, p: nat)
    requires u < p && Unambiguous(ops, p) && Meant(ops, j, u) && StillHeld(ops, k, u) && j != k
    ensures !Overlaps(ops[k].addr, ops[u].addr)
  {
    assert !Meant(ops, k, u);
  }

  /** Then held means: no overlapping unlock since. */
  lemma {:induction false} HeldIffStill(ops: seq<Op>, j: nat, p: nat)
    requires p <= |ops| && Unambiguous(ops, p)
    ensures HeldAt(ops, j, p) <==> StillHeld(ops, j, p)
    decreases p
  {
    if p > 0 {
      var u := p - 1;
      HeldNext(ops, j, u);
      HeldIffStill(ops, j, u);
      if ops[u].UnLock? && j < u && HeldAt(ops, j, u) && Overlaps(ops[j].addr, ops[u].addr) {
        assert Meant(ops, j, u);
        forall k | j < k < u && HeldAt(ops, k, u) ensures !Overlaps(ops[k].addr, ops[u].addr) {
          HeldIffStill(ops, k, u);
          OnlyOneMeant(ops, j, k, u, p);
        }
        assert Releases(ops, u, j);
      }
    }
  }

  /** Every lock before `p` has an overlapping unlock after it. */
  ghost predicate AllReleased(ops: seq<Op>, p: nat) { forall j :: 0 <= j < p ==> !StillHeld(ops, j, p) }

  lemma BalancedHoldsNone(ops: seq<Op>, p: nat)
    requires p <= |ops| && Unambiguous(ops, p) && AllReleased(ops, p)
    ensures NoLockHeld(ops, p)
  {
    forall j: nat ensures !HeldAt(ops, j, p) {
      HeldIffStill(ops, j, p);
    }
  }
}
