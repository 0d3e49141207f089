/**
 * From conditional branches back to the loads and compare-exchanges that decide them: a worklist over the
 * values of a program, whose dataflow may have cycles.
 */
module LpSlice {

  /** A value of the program, by what the analysis asks of it. Values are numbered. */
  datatype Value =
    | Constant
    | Argument
    | LoadInst(pointer: nat, block: nat)
    | CmpXchg
    | CallInst(args: seq<nat>, callee: int)  // callee -1: not known statically
    | OtherInst(operands: seq<nat>)

  datatype StoreInst = StoreInst(pointer: nat, value: nat)

  /** The stores of each basic block, and the values returned by each function (none for a declaration). */
  datatype Program = Program(values: seq<Value>, blocks: seq<seq<StoreInst>>, returned: seq<seq<nat>>) {
    ghost predicate Valid() {
      && (forall v: nat, x: nat :: Follows(v, x) ==> x < |values|)
      && (forall v :: 0 <= v < |values| && values[v].LoadInst? ==> values[v].block < |blocks|)
      && (forall v :: 0 <= v < |values| && values[v].CallInst? ==> -1 <= values[v].callee < |returned|)
    }

    predicate IsConstant(v: nat) { v < |values| && values[v].Constant? }

    predicate IsLp(v: nat) { v < |values| && (values[v].LoadInst? || values[v].CmpXchg?) }

    /** `v` is computed from `x`, as far as the analysis follows it: a load from what its own block stores to its
        pointer, a call from its arguments and what the function returns, any other instruction from its operands. */
    predicate Follows(v: nat, x: nat) {
      v < |values| &&
      match values[v]
      case LoadInst(pointer, block) => block < |blocks| && StoreInst(pointer, x) in blocks[block]
      case CallInst(args, callee) => x in args || (0 <= callee < |returned| && x in returned[callee])
      case OtherInst(operands) => x in operands
      case _ => false
    }

    /** Those values, as the worklist lists them. */
    function Next(v: nat): seq<nat>
      requires v < |values|
    {
      match values[v]
      case LoadInst(pointer, block) => if block < |blocks| then StoredTo(blocks[block], pointer) else []
      case CallInst(args, callee) => if 0 <= callee < |returned| then args + returned[callee] else args
      case OtherInst(operands) => operands
      case _ => []
    }
  }

  /** The values stored to `pointer` in one block. */
  function StoredTo(block: seq<StoreInst>, pointer: nat): seq<nat> {
    if block == [] then []
    else
      StoredTo(block[..|block| - 1], pointer)
      + (if block[|block| - 1].pointer == pointer then [block[|block| - 1].value] else [])
  }

  lemma {:induction false} StoredToIff(block: seq<StoreInst>, pointer: nat, x: nat)
    ensures x in StoredTo(block, pointer) <==> StoreInst(pointer, x) in block
  {
    if block != [] {
      StoredToIff(block[..|block| - 1], pointer, x);
      assert block == block[..|block| - 1] + [block[|block| - 1]];
    }
  }

  lemma NextIff(p: Program, v: nat, x: nat)
    requires v < |p.values|
    ensures x in p.Next(v) <==> p.Follows(v, x)
  {
    match p.values[v]
    case LoadInst(pointer, block) =>
      if block < |p.blocks| {
        StoredToIff(p.blocks[block], pointer, x);
      }
    case _ =>
  }

  // ---- What must be found ----

  /** A dataflow edge that the analysis follows: never into a constant. */
  predicate Edge(p: Program, v: nat, x: nat) {
    x < |p.values| && p.Follows(v, x) && !p.IsConstant(x)
  }

  /** A chain of edges from `from`. */
  ghost predicate IsPath(p: Program, from: nat, path: seq<nat>) {
    path != [] &&
    var n := |path| - 1;
    if n == 0 then path[0] == from else Edge(p, path[n - 1], path[n]) && IsPath(p, from, path[..n])
  }

  ghost predicate Reachable(p: Program, from: nat, v: nat) {
    exists path :: IsPath(p, from, path) && path[|path| - 1] == v
  }

  ghost predicate Closed(p: Program, s: set<nat>) {
    forall v, x :: v in s && Edge(p, v, x) ==> x in s
  }

  lemma {:induction false} PathStaysInside(p: Program, from: nat, path: seq<nat>, s: set<nat>)
    requires IsPath(p, from, path) && from in s && Closed(p, s)
    ensures path[|path| - 1] in s
    decreases |path|
  {
    if |path| > 1 {
      PathStaysInside(p, from, path[..|path| - 1], s);
    }
  }

  lemma ReachStep(p: Program, from: nat, v: nat, x: nat)
    requires Reachable(p, from, v) && Edge(p, v, x)
    ensures Reachable(p, from, x)
  {
    var path :| IsPath(p, from, path) && path[|path| - 1] == v;
    assert (path + [x])[..|path|] == path;
    assert IsPath(p, from, path + [x]);
  }

  // ---- The worklist ----

  ghost function Elements(q: seq<nat>): set<nat> { set x | x in q }

  ghost predicate NoDuplicates(q: seq<nat>) { forall i, j :: 0 <= i < j < |q| ==> q[i] != q[j] }

  /** Queues the values that are not constants and were not queued before. */
  method PushNew(p: Program, next: seq<nat>, todo: seq<nat>, visited: set<nat>)
    returns (todo': seq<nat>, visited': set<nat>)
    requires NoDuplicates(todo) && Elements(todo) <= visited
    ensures NoDuplicates(todo') && visited' == visited + (set x | x in next && !p.IsConstant(x))
    ensures Elements(todo') == Elements(todo) + (visited' - visited)
  {
    todo', visited' := todo, visited;
    for i := 0 to |next|
      invariant NoDuplicates(todo') && Elements(todo') <= visited'
      invariant visited' == visited + (set x | x in next[..i] && !p.IsConstant(x))
      invariant Elements(todo') == Elements(todo) + (visited' - visited)
    {
      var x := next[i];
      assert next[..i + 1] == next[..i] + [x];
      if !p.IsConstant(x) && x !in visited' {
        todo', visited' := todo' + [x], visited' + {x};
      }
    }
    assert next[..|next|] == next;
  }

  function UpTo(n: nat): (r: set<nat>)
    ensures forall v :: v in r <==> 0 <= v < n
  {
    if n == 0 then {} else UpTo(n - 1) + {n - 1}
  }

  ghost predicate AllReachable(p: Program, cond: nat, s: set<nat>) { forall v :: v in s ==> Reachable(p, cond, v) }

  /** Every edge out of a handled value leads to a value that was queued. */
  ghost predicate EdgesInto(p: Program, done: set<nat>, visited: set<nat>) {
    forall v, x :: v in done && Edge(p, v, x) ==> x in visited
  }

  /** The values queued when `v` is handled. */
  ghost function Queued(p: Program, v: nat): set<nat>
    requires v < |p.values|
  {
    set x | x in p.Next(v) && !p.IsConstant(x)
  }

  lemma HandleOne(p: Program, cond: nat, v: nat, visited: set<nat>, done: set<nat>)
    requires p.Valid() && v < |p.values| && v in visited && visited <= UpTo(|p.values|)
    requires AllReachable(p, cond, visited) && EdgesInto(p, done, visited)
    ensures visited + Queued(p, v) <= UpTo(|p.values|)
    ensures AllReachable(p, cond, visited + Queued(p, v)) && EdgesInto(p, done + {v}, visited + Queued(p, v))
  {
    NextReachable(p, cond, v);
    forall x: nat ensures x in p.Next(v) <==> p.Follows(v, x) {
      NextIff(p, v, x);
    }
  }

  lemma HeadAndRest(todo: seq<nat>)
    requires todo != [] && NoDuplicates(todo)
    ensures NoDuplicates(todo[1..]) && todo[0] !in Elements(todo[1..])
    ensures Elements(todo) == {todo[0]} + Elements(todo[1..])
  {
    assert forall x :: x in todo <==> x == todo[0] || x in todo[1..];
  }

  /** One round: the first value leaves the queue and those it depends on join it. */
  method Handle(p: Program, queue: seq<nat>, visited: set<nat>, r: set<nat>, ghost done: set<nat>)
    returns (todo: seq<nat>, visited': set<nat>, r': set<nat>)
    requires queue != [] && queue[0] < |p.values| && NoDuplicates(queue)
    requires visited == done + Elements(queue) && done !! Elements(queue)
    ensures NoDuplicates(todo) && visited' == visited + Queued(p, queue[0])
    ensures visited' == done + {queue[0]} + Elements(todo) && (done + {queue[0]}) !! Elements(todo)
    ensures r' == r + if p.IsLp(queue[0]) then {queue[0]} else {}
  {
    HeadAndRest(queue);
    var v := queue[0];
    r' := if p.IsLp(v) then r + {v} else r;
    todo, visited' := PushNew(p, p.Next(v), queue[1..], visited);
  }

  /** The loads and compare-exchanges found from one branch condition are exactly the reachable ones. Each value
      is queued at most once. */
  method GetLpsFromBr(p: Program, cond: nat, lps: set<nat>) returns (r: set<nat>, ghost popped: seq<nat>)
    requires p.Valid() && cond < |p.values|
    ensures forall v :: v in r <==> v in lps || (p.IsLp(v) && Reachable(p, cond, v))
    ensures NoDuplicates(popped) && forall v :: v in popped <==> Reachable(p, cond, v)
  {
    var todo, visited := [cond], {cond};
    ghost var done: set<nat> := {};
    r, popped := lps, [];
    assert IsPath(p, cond, [cond]) && [cond][0] == cond;
    while todo != []
      invariant NoDuplicates(todo) && visited == done + Elements(todo) && done !! Elements(todo)
      invariant NoDuplicates(popped) && Elements(popped) == done
      invariant cond in visited && visited <= UpTo(|p.values|)
      invariant AllReachable(p, cond, visited) && EdgesInto(p, done, visited)
      invariant r == lps + (set v | v in done && p.IsLp(v))
      decreases UpTo(|p.values|) - done
    {
      var v := todo[0];
      assert v in Elements(todo);
      HandleOne(p, cond, v, visited, done);
      todo, visited, r := Handle(p, todo, visited, r, done);
      PopOne(popped, v);
      done, popped := done + {v}, popped + [v];
    }
    AllReachableInside(p, cond, done);
  }

  lemma PopOne(popped: seq<nat>, v: nat)
    requires NoDuplicates(popped) && v !in Elements(popped)
    ensures NoDuplicates(popped + [v]) && Elements(popped + [v]) == Elements(popped) + {v}
  {
  }

  lemma AllReachableInside(p: Program, cond: nat, s: set<nat>)
    requires cond in s && Closed(p, s)
    ensures forall v :: Reachable(p, cond, v) ==> v in s
  {
    forall v | Reachable(p, cond, v) ensures v in s {
      var path :| IsPath(p, cond, path) && path[|path| - 1] == v;
      PathStaysInside(p, cond, path, s);
    }
  }

  lemma NextReachable(p: Program, cond: nat, v: nat)
    requires p.Valid() && v < |p.values| && Reachable(p, cond, v)
    ensures forall x :: x in p.Next(v) && !p.IsConstant(x) ==> x < |p.values| && Reachable(p, cond, x)
  {
    forall x | x in p.Next(v) && !p.IsConstant(x) ensures x < |p.values| && Reachable(p, cond, x) {
      NextIff(p, v, x);
      ReachStep(p, cond, v, x);
    }
  }

  /** Over all branches: the union. */
  method Run(p: Program, conds: set<nat>) returns (lps: set<nat>)
    requires p.Valid() && forall c :: c in conds ==> c < |p.values|
    ensures forall v :: v in lps <==> p.IsLp(v) && exists c :: c in conds && Reachable(p, c, v)
  {
    lps := {};
    var todo := conds;
    while todo != {}
      invariant todo <= conds
      invariant forall v :: v in lps <==> p.IsLp(v) && exists c :: c in conds - todo && Reachable(p, c, v)
    {
      var c :| c in todo;
      var found, _ := GetLpsFromBr(p, c, lps);
      lps := found;
      assert conds - (todo - {c}) == conds - todo + {c};
      todo := todo - {c};
    }
    assert conds - {} == conds;
  }
}
