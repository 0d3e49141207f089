/**
 * The oracle for queues: which contents a recovered queue may have after a crash, and the script of dequeues and
 * enqueues that checks it.
 */
module QueueOracle {
  import opened OracleMatch
  import opened Wrappers

  datatype QOp = Enq(value: string) | Deq

  type Queue = seq<string>

  function Tail(q: Queue, n: nat): Queue { if n <= |q| then q[n..] else [] }

  /** One operation on a queue; dequeuing an empty queue changes nothing. */
  function Apply(q: Queue, op: QOp): Queue {
    match op
    case Enq(v) => q + [v]
    case Deq => Tail(q, 1)
  }

  function ApplyAll(ops: seq<QOp>): Queue {
    if ops == [] then [] else Apply(ApplyAll(ops[..|ops| - 1]), ops[|ops| - 1])
  }

  /** All values ever enqueued, in order. */
  function Enqueued(ops: seq<QOp>): seq<string> {
    if ops == [] then []
    else Enqueued(ops[..|ops| - 1]) + if ops[|ops| - 1].Enq? then [ops[|ops| - 1].value] else []
  }

  /** How many dequeues found something: those that came when fewer had than values were enqueued. */
  function Dequeued(ops: seq<QOp>): nat {
    if ops == [] then 0
    else
      var front := ops[..|ops| - 1];
      Dequeued(front) + if ops[|ops| - 1].Deq? && Dequeued(front) < |Enqueued(front)| then 1 else 0
  }

  /** First in, first out: what is left is the values enqueued without the ones dequeued from the front. */
  lemma {:induction false} FirstInFirstOut(ops: seq<QOp>)
    ensures Dequeued(ops) <= |Enqueued(ops)| && ApplyAll(ops) == Enqueued(ops)[Dequeued(ops)..]
  {
    if ops != [] {
      FirstInFirstOut(ops[..|ops| - 1]);
    }
  }

  // ---- The models ----

  /** PrefixOPFileQueue.gen_model */
  method PrefixModel(ops: seq<QOp>) returns (model: Queue)
    ensures model == ApplyAll(ops)
  {
    model := [];
    assert ops[..0] == [];
    for i := 0 to |ops|
      invariant model == ApplyAll(ops[..i])
    {
      assert ops[..i + 1][..i] == ops[..i];
      match ops[i]
      case Enq(v) => model := model + [v];
      case Deq =>
        if |model| > 0 {
          model := model[1..];
        }
    }
    assert ops[..|ops|] == ops;
  }

  /** RaceOPFileQueue.gen_model: the first operation was interrupted, the second one done. */
  function RaceModels(model: Queue, op0: QOp, op1: QOp): seq<Queue> {
    match (op0, op1)
    case (Enq(_), Enq(_)) => [model]
    case (Deq, Deq) => [Tail(model, 1), Tail(model, 2)]
    case (Enq(_), Deq) => [Tail(model, 1)]
    case (Deq, Enq(_)) => [model, Tail(model, 1)]
  }

  /** LSOPValidatorQueue.gen_model: the operation numbered `idx` was interrupted. */
  method LsModels(ops: seq<QOp>, idx: nat) returns (models: seq<Queue>)
    ensures models == if idx < |ops| then LsModelsOf(ApplyAll(ops[..idx]), ops[idx]) else []
  {
    models := [];
    var model: Queue := [];
    assert ops[..0] == [];
    for i := 0 to |ops|
      invariant i <= idx + 1
      invariant i <= idx ==> models == [] && model == ApplyAll(ops[..i])
      invariant i == idx + 1 ==> models == LsModelsOf(ApplyAll(ops[..idx]), ops[idx])
    {
      if i > idx {
        break;
      }
      assert ops[..i + 1][..i] == ops[..i];
      match ops[i]
      case Enq(v) =>
        if i != idx {
          model := model + [v];
        } else {
          models := models + [model];
        }
      case Deq =>
        if i != idx {
          if |model| > 0 {
            model := model[1..];
          }
        } else {
          models := models + [model] + [Tail(model, 1)];
        }
    }
  }

  function LsModelsOf(model: Queue, op: QOp): seq<Queue> {
    if op.Enq? then [model] else [model, Tail(model, 1)]
  }

  // ---- The script ----

  function MinLength(models: seq<Queue>): nat {
    if models == [] then 0
    else if |models| == 1 then |models[0]|
    else
      var rest := MinLength(models[..|models| - 1]);
      if |models[|models| - 1]| < rest then |models[|models| - 1]| else rest
  }

  /** What the models say about the element at `i`. */
  function Alternatives(models: seq<Queue>, i: nat): seq<string>
    requires forall m :: 0 <= m < |models| ==> i < |models[m]|
  {
    seq(|models|, m requires 0 <= m < |models| => models[m][i])
  }

  lemma {:induction false} MinLengthIsLeast(models: seq<Queue>)
    ensures forall m :: 0 <= m < |models| ==> MinLength(models) <= |models[m]|
  {
    if |models| > 1 {
      MinLengthIsLeast(models[..|models| - 1]);
    }
  }

  function Input(minL: nat, k: nat): QOp { if minL <= k < minL + 10 then Enq("999") else Deq }

  function Inputs(minL: nat): seq<QOp> { seq(minL + 20, k requires 0 <= k < minL + 20 => Input(minL, k)) }

  function Oracle(models: seq<Queue>, k: nat): string {
    var minL := MinLength(models);
    MinLengthIsLeast(models);
    if k < minL then Join(Alternatives(models, k))
    else if k < minL + 10 then ""
    else if k < minL + 12 then MAGIC_ANY
    else "999"
  }

  function Oracles(models: seq<Queue>): seq<string> {
    seq(MinLength(models) + 20, k requires 0 <= k < MinLength(models) + 20 => Oracle(models, k))
  }

  lemma {:induction false} JoinSnoc(vs: seq<string>, v: string)
    requires vs != []
    ensures Join(vs + [v]) == Join(vs) + MAGIC + v
  {
    if |vs| == 1 {
      assert (vs + [v])[1..] == [v];
    } else {
      assert (vs + [v])[1..] == vs[1..] + [v];
      JoinSnoc(vs[1..], v);
    }
  }

  /** Alternatives, each with the separator in front. */
  function Separated(vs: seq<string>): string { if vs == [] then "" else MAGIC + Join(vs) }

  lemma SeparatedNext(vs: seq<string>, v: string)
    ensures Separated(vs + [v]) == Separated(vs) + MAGIC + v
  {
    if vs == [] {
      assert vs + [v] == [v] && Join([v]) == v;
    } else {
      JoinSnoc(vs, v);
      assert MAGIC + (Join(vs) + MAGIC + v) == MAGIC + Join(vs) + MAGIC + v;
    }
  }

  /** The alternatives for one position, each with the separator in front and the first separator cut off. */
  method JoinModels(models: seq<Queue>, i: nat) returns (oracle: string)
    requires models != [] && forall m :: 0 <= m < |models| ==> i < |models[m]|
    ensures oracle == Join(Alternatives(models, i))
  {
    oracle := "";
    ghost var vs: seq<string> := [];
    for m := 0 to |models|
      invariant vs == Alternatives(models, i)[..m] && oracle == Separated(vs)
    {
      SeparatedNext(vs, models[m][i]);
      oracle := oracle + MAGIC + models[m][i];
      vs := vs + [models[m][i]];
    }
    assert vs == Alternatives(models, i);
    oracle := oracle[3..];
  }

  /** The dequeues that are compared with the models. */
  method GenFirst(models: seq<Queue>, minL: nat) returns (inputs: seq<QOp>, oracles: seq<string>)
    requires minL == MinLength(models)
    ensures inputs == Inputs(minL)[..minL] && oracles == Oracles(models)[..minL]
  {
    inputs, oracles := [], [];
    MinLengthIsLeast(models);
    for i := 0 to minL
      invariant inputs == Inputs(minL)[..i] && oracles == Oracles(models)[..i]
    {
      inputs := inputs + [Deq];
      var oracle := JoinModels(models, i);
      oracles := oracles + [oracle];
    }
  }

  /** gen_val_input_and_oracle; without models only the fixed part is left. */
  method GenScript(models: seq<Queue>) returns (inputs: seq<QOp>, oracles: seq<string>)
    ensures inputs == Inputs(MinLength(models)) && oracles == Oracles(models)
  {
    var minL := -1;
    for m := 0 to |models|
      invariant m == 0 ==> minL == -1
      invariant m > 0 ==> minL == MinLength(models[..m])
    {
      assert models[..m + 1][..m] == models[..m];
      if minL == -1 {
        minL := |models[m]|;
      }
      if |models[m]| < minL {
        minL := |models[m]|;
      }
    }
    assert models[..|models|] == models;
    if minL == -1 {
      minL := 0;
    }
    inputs, oracles := GenFirst(models, minL);
    for i := 0 to 10
      invariant inputs == Inputs(minL)[..minL + i] && oracles == Oracles(models)[..minL + i]
    {
      inputs, oracles := inputs + [Enq("999")], oracles + [""];
    }
    for i := 0 to 2
      invariant inputs == Inputs(minL)[..minL + 10 + i] && oracles == Oracles(models)[..minL + 10 + i]
    {
      inputs, oracles := inputs + [Deq], oracles + [MAGIC_ANY];
    }
    for i := 0 to 8
      invariant inputs == Inputs(minL)[..minL + 12 + i] && oracles == Oracles(models)[..minL + 12 + i]
    {
      inputs, oracles := inputs + [Deq], oracles + ["999"];
    }
  }

  // ---- Running the script on a recovered queue ----

  function After(q: Queue, minL: nat, k: nat): Queue {
    if k == 0 then q else Apply(After(q, minL, k - 1), Input(minL, k - 1))
  }

  /** What the program prints: the dequeued value, `nul` for an empty queue, `ack` for an enqueue. */
  function Output(q: Queue, minL: nat, k: nat, nul: string, ack: string): string {
    var state := After(q, minL, k);
    if Input(minL, k).Enq? then ack else if state == [] then nul else state[0]
  }

  function Outputs(q: Queue, minL: nat, nul: string, ack: string): seq<string> {
    seq(minL + 20, k requires 0 <= k < minL + 20 => Output(q, minL, k, nul, ack))
  }

  function Nines(n: nat): Queue { seq(n, _ => "999") }

  lemma {:induction false} AfterShape(q: Queue, minL: nat, k: nat)
    ensures k <= minL ==> After(q, minL, k) == Tail(q, k)
    ensures minL <= k <= minL + 10 ==> After(q, minL, k) == Tail(q, minL) + Nines(k - minL)
    ensures minL + 10 <= k <= minL + 20 ==> After(q, minL, k) == Tail(Tail(q, minL) + Nines(10), k - minL - 10)
  {
    if k > 0 {
      AfterShape(q, minL, k - 1);
      if minL < k <= minL + 10 {
        assert Nines(k - 1 - minL) + ["999"] == Nines(k - minL);
      }
    }
  }

  /** The output at `k` in terms of the recovered contents. */
  lemma OutputShape(q: Queue, minL: nat, k: nat, nul: string, ack: string)
    ensures k < minL ==> Output(q, minL, k, nul, ack) == if k < |q| then q[k] else nul
    ensures minL + 12 <= k < minL + 20 ==>
              Output(q, minL, k, nul, ack) == if k - 10 < |q| then q[k - 10] else "999"
  {
    AfterShape(q, minL, k);
  }

  /** Some model has `v` at position `i`. */
  ghost predicate SomeModelHas(models: seq<Queue>, i: nat, v: string) {
    exists m :: 0 <= m < |models| && i < |models[m]| && models[m][i] == v
  }

  function ElementOr(q: Queue, i: nat, nul: string): string { if i < |q| then q[i] else nul }

  /** After two more elements of any kind only the freshly enqueued values follow. */
  ghost predicate TailPasses(models: seq<Queue>, q: Queue) {
    forall i :: MinLength(models) + 2 <= i < MinLength(models) + 10 && i < |q| ==> q[i] == "999"
  }

  /** The first elements agree with some model, position by position. */
  ghost predicate Agrees(models: seq<Queue>, q: Queue, nul: string) {
    && (forall i :: 0 <= i < MinLength(models) ==> SomeModelHas(models, i, ElementOr(q, i, nul)))
    && TailPasses(models, q)
  }

  /** The only alternative for position `i` is the empty string, and its oracle line is empty. */
  predicate Skipped(models: seq<Queue>, i: nat) { |models| == 1 && i < |models[0]| && models[0][i] == "" }

  /** What the script checks: as `Agrees`, except where a line is skipped. */
  ghost predicate Passes(models: seq<Queue>, q: Queue, nul: string) {
    && (forall i :: 0 <= i < MinLength(models) ==> Skipped(models, i) || SomeModelHas(models, i, ElementOr(q, i, nul)))
    && TailPasses(models, q)
  }

  ghost predicate SeparableModels(models: seq<Queue>) {
    MinLengthIsLeast(models);
    forall k :: 0 <= k < MinLength(models) ==> Separable(Alternatives(models, k))
  }

  lemma AlternativesMembers(models: seq<Queue>, i: nat, v: string)
    requires forall m :: 0 <= m < |models| ==> i < |models[m]|
    ensures v in Alternatives(models, i) <==> SomeModelHas(models, i, v)
    ensures Alternatives(models, i) == [""] <==> Skipped(models, i)
  {
    if SomeModelHas(models, i, v) {
      var m :| 0 <= m < |models| && i < |models[m]| && models[m][i] == v;
      assert Alternatives(models, i)[m] == v;
    }
    if Alternatives(models, i) == [""] {
      assert Alternatives(models, i)[0] == "";
    }
  }

  lemma AcceptedFirst(models: seq<Queue>, q: Queue, nul: string, ack: string, k: nat)
    requires SeparableModels(models) && k < MinLength(models)
    ensures Oracles(models)[k] == "" <==> Skipped(models, k)
    ensures AcceptedAt(Outputs(q, MinLength(models), nul, ack), Oracles(models), k) <==>
            Skipped(models, k) || SomeModelHas(models, k, ElementOr(q, k, nul))
  {
    var minL := MinLength(models);
    MinLengthIsLeast(models);
    var vs := Alternatives(models, k);
    OutputShape(q, minL, k, nul, ack);
    JoinEmptyIff(vs);
    AcceptedAlternatives(Outputs(q, minL, nul, ack), Oracles(models), k, vs);
    AlternativesMembers(models, k, ElementOr(q, k, nul));
  }

  lemma AcceptedLater(models: seq<Queue>, q: Queue, nul: string, ack: string, k: nat)
    requires MinLength(models) <= k < MinLength(models) + 20
    ensures AcceptedAt(Outputs(q, MinLength(models), nul, ack), Oracles(models), k) <==>
            (k >= MinLength(models) + 12 && k - 10 < |q| ==> q[k - 10] == "999")
  {
    var minL := MinLength(models);
    OutputShape(q, minL, k, nul, ack);
    var outs := Outputs(q, minL, nul, ack);
    if k >= minL + 12 {
      assert Join(["999"]) == "999";
      PlainChars("999");
      AcceptedAlternatives(outs, Oracles(models), k, ["999"]);
    } else if k >= minL + 10 {
      MatchesAny(outs[k], Previous(outs, Oracles(models), k));
    }
  }

  /** Every output of the script on the recovered queue is accepted. */
  ghost predicate ScriptAccepts(models: seq<Queue>, q: Queue, nul: string, ack: string) {
    AllAccepted(Outputs(q, MinLength(models), nul, ack), Oracles(models))
  }

  lemma PassesAccepted(models: seq<Queue>, q: Queue, nul: string, ack: string)
    requires SeparableModels(models) && Passes(models, q, nul)
    ensures ScriptAccepts(models, q, nul, ack)
  {
    forall k | 0 <= k < |Oracles(models)|
      ensures AcceptedAt(Outputs(q, MinLength(models), nul, ack), Oracles(models), k)
    {
      if k < MinLength(models) {
        AcceptedFirst(models, q, nul, ack, k);
      } else {
        AcceptedLater(models, q, nul, ack, k);
      }
    }
  }

  /** The script accepts a recovered queue exactly when it passes. */
  lemma AcceptedIff(models: seq<Queue>, q: Queue, nul: string, ack: string)
    requires SeparableModels(models)
    ensures ScriptAccepts(models, q, nul, ack) <==> Passes(models, q, nul)
  {
    var minL := MinLength(models);
    if Passes(models, q, nul) {
      PassesAccepted(models, q, nul, ack);
    }
    if ScriptAccepts(models, q, nul, ack) {
      forall i | 0 <= i < minL ensures Skipped(models, i) || SomeModelHas(models, i, ElementOr(q, i, nul)) {
        AcceptedFirst(models, q, nul, ack, i);
      }
      forall i | minL + 2 <= i < minL + 10 && i < |q| ensures q[i] == "999" {
        AcceptedLater(models, q, nul, ack, i + 10);
      }
    }
  }

  /** The script accepts exactly the queues that agree with the models, for every queue, if and only if no line is
      skipped: two models never skip one, and a single model does so at its empty values. */
  lemma AcceptedExactlyWhenNoneSkipped(models: seq<Queue>, nul: string, ack: string)
    requires SeparableModels(models)
    ensures (forall q :: ScriptAccepts(models, q, nul, ack) <==> Agrees(models, q, nul)) <==>
            forall i :: 0 <= i < MinLength(models) ==> !Skipped(models, i)
  {
    forall q ensures ScriptAccepts(models, q, nul, ack) <==> Passes(models, q, nul) {
      AcceptedIff(models, q, nul, ack);
    }
    if k :| 0 <= k < MinLength(models) && Skipped(models, k) {
      var q := models[0][k := "x"];
      assert !SomeModelHas(models, k, ElementOr(q, k, nul));
      forall i | 0 <= i < MinLength(models) && i != k ensures SomeModelHas(models, i, ElementOr(q, i, nul)) {
        assert models[0][i] == q[i];
      }
      assert ScriptAccepts(models, q, nul, ack) && !Agrees(models, q, nul);
    }
  }

  /** The input that shows it: one enqueued empty string, and a recovered queue with something else. */
  lemma EmptyValueIsMissed(nul: string, ack: string)
    ensures ScriptAccepts([[""]], ["x"], nul, ack) && !Agrees([[""]], ["x"], nul)
  {
    assert ScriptAccepts([[""]], ["x"], nul, ack) by {
      PlainChars("");
      assert Alternatives([[""]], 0) == [""];
      AcceptedIff([[""]], ["x"], nul, ack);
      assert Skipped([[""]], 0);
    }
    assert !SomeModelHas([[""]], 0, ElementOr(["x"], 0, nul));
  }

  // ---- The permitted outcomes agree ----

  /** What a crash may leave after the interrupted `op0` and the completed `op1`: the first dropped, or taken on
      either side of the second. */
  predicate RaceOutcome(model: Queue, op0: QOp, op1: QOp, q: Queue) {
    || q == Apply(model, op1)
    || q == Apply(Apply(model, op0), op1)
    || q == Apply(Apply(model, op1), op0)
  }

  /** Every permitted outcome agrees with the models, and at most two elements are left when the modelled ones are
      gone. */
  lemma RaceOutcomeAgrees(model: Queue, op0: QOp, op1: QOp, q: Queue, nul: string)
    requires RaceOutcome(model, op0, op1, q)
    ensures MinLength(RaceModels(model, op0, op1)) <= |q| <= MinLength(RaceModels(model, op0, op1)) + 2
    ensures Agrees(RaceModels(model, op0, op1), q, nul)
  {
    AgreesIfPrefix(RaceModels(model, op0, op1), q, nul);
  }

  /** Single interrupted operation: dropped or taken. */
  lemma LsOutcomeAgrees(model: Queue, op: QOp, q: Queue, nul: string)
    requires q == model || q == Apply(model, op)
    ensures MinLength(LsModelsOf(model, op)) <= |q| <= MinLength(LsModelsOf(model, op)) + 2
    ensures Agrees(LsModelsOf(model, op), q, nul)
  {
    AgreesIfPrefix(LsModelsOf(model, op), q, nul);
  }

  // ---- When no permitted outcome is reported ----

  /** The line for position `k` accepts the value that model `m` has there, when the values before it are also those of
      model `m`. */
  ghost predicate OwnLineAccepts(models: seq<Queue>, m: nat, k: nat)
    requires m < |models| && k < MinLength(models) && k < |models[m]|
  {
    AcceptedAt(models[m], Oracles(models), k)
  }

  /** A queue that begins as one of the models, with at most two elements more, is accepted if and only if every line
      accepts that model's value. */
  lemma AcceptsOwnModel(models: seq<Queue>, m: nat, q: Queue, nul: string, ack: string)
    requires m < |models| && HasPrefix(models[m], q, MinLength(models)) && |q| <= MinLength(models) + 2
    ensures ScriptAccepts(models, q, nul, ack) <==>
            forall k :: 0 <= k < MinLength(models) ==> OwnLineAccepts(models, m, k)
  {
    var minL := MinLength(models);
    var outs, oracles := Outputs(q, minL, nul, ack), Oracles(models);
    forall k | 0 <= k < minL ensures AcceptedAt(outs, oracles, k) <==> OwnLineAccepts(models, m, k) {
      OwnLine(models, m, q, nul, ack, k);
    }
    forall k | minL <= k < |oracles| ensures AcceptedAt(outs, oracles, k) {
      AcceptedLater(models, q, nul, ack, k);
    }
  }

  lemma OwnLine(models: seq<Queue>, m: nat, q: Queue, nul: string, ack: string, k: nat)
    requires m < |models| && HasPrefix(models[m], q, MinLength(models)) && k < MinLength(models)
    ensures AcceptedAt(Outputs(q, MinLength(models), nul, ack), Oracles(models), k) <==> OwnLineAccepts(models, m, k)
  {
    var outs := Outputs(q, MinLength(models), nul, ack);
    forall j | 0 <= j <= k ensures outs[j] == models[m][j] {
      OwnOutput(models[m], q, MinLength(models), nul, ack, j);
    }
    SameOutputs(outs, models[m], Oracles(models), Oracles(models), k);
  }

  lemma OwnOutput(model: Queue, q: Queue, minL: nat, nul: string, ack: string, j: nat)
    requires HasPrefix(model, q, minL) && j < minL
    ensures Outputs(q, minL, nul, ack)[j] == model[j]
  {
    OutputShape(q, minL, j, nul, ack);
    assert q[j] == q[..minL][j] == model[..minL][j];
  }

  /** A single model: each value recognises itself, or is empty and skipped. */
  ghost predicate OneReadable(model: Queue) {
    forall k :: 0 <= k < |model| ==> model[k] == "" || Recognised(model[k], Previous(model, model, k))
  }

  lemma OneModel(model: Queue)
    ensures MinLength([model]) == |model|
    ensures (forall k :: 0 <= k < |model| ==> OwnLineAccepts([model], 0, k)) <==> OneReadable(model)
  {
    forall k | 0 <= k < |model|
      ensures OwnLineAccepts([model], 0, k) <==> model[k] == "" || Recognised(model[k], Previous(model, model, k))
    {
      OneOracles(model);
      SamePrevious(model, model, Oracles([model]), model, k);
      MatchesSelf(model[k], Previous(model, model, k));
    }
  }

  lemma OneOracles(model: Queue)
    ensures forall k :: 0 <= k < |model| ==> Oracles([model])[k] == model[k]
  {
    forall k | 0 <= k < |model| ensures Oracles([model])[k] == model[k] {
      assert Alternatives([model], k) == [model[k]];
    }
  }

  /** Two models: at each position a wildcard, or a request for the previous output that both values meet, or two values
      that can be told apart. */
  ghost predicate PairReadable(x: Queue, y: Queue, k: nat)
    requires k < |x| && k < |y|
  {
    if k == 0 then BothReadable(x[k], y[k], None, None)
    else BothReadable(x[k], y[k], Some(x[k - 1]), Some(y[k - 1]))
  }

  ghost predicate TwoReadable(x: Queue, y: Queue) {
    forall k :: 0 <= k < |x| && k < |y| ==> PairReadable(x, y, k)
  }

  lemma TwoModels(x: Queue, y: Queue, k: nat)
    requires k < |x| && k < |y|
    ensures MinLength([x, y]) == if |x| < |y| then |x| else |y|
    ensures OwnLineAccepts([x, y], 0, k) && OwnLineAccepts([x, y], 1, k) <==> PairReadable(x, y, k)
  {
    var models := [x, y];
    assert models[..1] == [x];
    TwoOracle(x, y, k);
    if k == 0 {
      BothReadableIff(x[k], y[k], None, None);
    } else {
      TwoOracle(x, y, k - 1);
      BothReadableIff(x[k], y[k], Some(x[k - 1]), Some(y[k - 1]));
    }
  }

  lemma TwoOracle(x: Queue, y: Queue, k: nat)
    requires k < |x| && k < |y|
    ensures MinLength([x, y]) == if |x| < |y| then |x| else |y|
    ensures Oracles([x, y])[k] == x[k] + MAGIC + y[k] != ""
  {
    assert [x, y][..1] == [x];
    var vs := [x[k], y[k]];
    assert Alternatives([x, y], k) == vs && vs[1..] == [y[k]] && Join([y[k]]) == y[k];
    assert Join(vs) == x[k] + MAGIC + y[k];
  }

  /** What the models must be like for the script to report no permitted outcome. */
  ghost predicate Readable(models: seq<Queue>)
    requires 1 <= |models| <= 2
  {
    if |models| == 1 then OneReadable(models[0]) else TwoReadable(models[0], models[1])
  }

  lemma ReadableIff(models: seq<Queue>)
    requires 1 <= |models| <= 2
    ensures Readable(models) <==>
            forall m, k :: 0 <= m < |models| && 0 <= k < MinLength(models) && k < |models[m]| ==>
              OwnLineAccepts(models, m, k)
  {
    if |models| == 1 {
      assert models == [models[0]];
      OneModel(models[0]);
    } else {
      var x, y := models[0], models[1];
      assert models == [x, y] && models[..1] == [x];
      forall k | 0 <= k < |x| && k < |y|
        ensures OwnLineAccepts(models, 0, k) && OwnLineAccepts(models, 1, k) <==> PairReadable(x, y, k)
      {
        TwoModels(x, y, k);
      }
    }
  }

  /** Queues that begin as some model, with at most two elements more, are all accepted if and only if the models are
      readable; each model itself is enough to show it. */
  lemma AcceptsModelsIff(models: seq<Queue>, nul: string, ack: string)
    requires 1 <= |models| <= 2
    ensures Readable(models) <==>
            forall m, q :: 0 <= m < |models| && BeginsAs(models, m, q) ==> ScriptAccepts(models, q, nul, ack)
  {
    ReadableIff(models);
    forall m, q | 0 <= m < |models| && BeginsAs(models, m, q)
      ensures ScriptAccepts(models, q, nul, ack) <==>
              forall k :: 0 <= k < MinLength(models) ==> OwnLineAccepts(models, m, k)
    {
      AcceptsOwnModel(models, m, q, nul, ack);
    }
    MinLengthIsLeast(models);
    forall m | 0 <= m < |models| ensures BeginsAs(models, m, models[m][..MinLength(models)]) {}
  }

  ghost predicate BeginsAs(models: seq<Queue>, m: nat, q: Queue)
    requires m < |models|
  {
    HasPrefix(models[m], q, MinLength(models)) && |q| <= MinLength(models) + 2
  }

  lemma OutcomeBegins(model: Queue, op0: QOp, op1: QOp, q: Queue) returns (m: nat)
    requires RaceOutcome(model, op0, op1, q)
    ensures m < |RaceModels(model, op0, op1)| && BeginsAs(RaceModels(model, op0, op1), m, q)
  {
    var models := RaceModels(model, op0, op1);
    assert |models| == 2 ==> models[..1] == [models[0]];
    m := if |models| == 2 && q != Apply(model, op1) then 1 else 0;
  }

  lemma OutcomeFor(model: Queue, op0: QOp, op1: QOp, m: nat) returns (q: Queue)
    requires m < |RaceModels(model, op0, op1)|
    ensures RaceOutcome(model, op0, op1, q) && BeginsAs(RaceModels(model, op0, op1), m, q)
  {
    var models := RaceModels(model, op0, op1);
    assert |models| == 2 ==> models[..1] == [models[0]];
    q := if m == 0 then Apply(model, op1) else Apply(Apply(model, op0), op1);
  }

  /** For every prefix and every race, the script reports none of the permitted outcomes if and only if the models are
      readable. */
  lemma NoFalseAlarm(prefix: seq<QOp>, op0: QOp, op1: QOp, nul: string, ack: string)
    ensures var models := RaceModels(ApplyAll(prefix), op0, op1);
            (forall q :: RaceOutcome(ApplyAll(prefix), op0, op1, q) ==> ScriptAccepts(models, q, nul, ack)) <==>
            Readable(models)
  {
    var model := ApplyAll(prefix);
    var models := RaceModels(model, op0, op1);
    if Readable(models) {
      forall q | RaceOutcome(model, op0, op1, q) ensures ScriptAccepts(models, q, nul, ack) {
        var m := OutcomeBegins(model, op0, op1, q);
        AcceptsModelsIff(models, nul, ack);
      }
    }
    if forall q :: RaceOutcome(model, op0, op1, q) ==> ScriptAccepts(models, q, nul, ack) {
      forall m, k | 0 <= m < |models| && 0 <= k < MinLength(models) && k < |models[m]|
        ensures OwnLineAccepts(models, m, k)
      {
        var q := OutcomeFor(model, op0, op1, m);
        AcceptsOwnModel(models, m, q, nul, ack);
      }
      ReadableIff(models);
    }
  }

  /** And for every single interrupted operation. */
  lemma LsNoFalseAlarm(prefix: seq<QOp>, op: QOp, nul: string, ack: string)
    ensures var model, models := ApplyAll(prefix), LsModelsOf(ApplyAll(prefix), op);
            (forall q :: q == model || q == Apply(model, op) ==> ScriptAccepts(models, q, nul, ack)) <==>
            Readable(models)
  {
    var model := ApplyAll(prefix);
    var models := LsModelsOf(model, op);
    assert |models| == 2 ==> models[..1] == [models[0]];
    assert BeginsAs(models, 0, model) && BeginsAs(models, |models| - 1, Apply(model, op));
    AcceptsOwnModel(models, 0, model, nul, ack);
    AcceptsOwnModel(models, |models| - 1, Apply(model, op), nul, ack);
    ReadableIff(models);
  }

  /** The input that shows it: an untouched queue with the separator inside a value is reported. */
  lemma SeparatorInValueIsReported(nul: string, ack: string)
    ensures !ScriptAccepts([["a!!!b"]], ["a!!!b"], nul, ack)
  {
    var v := "a!!!b";
    FoundBy(v, MAGIC, 1);
    NotContained(v, '#', MAGIC_ANY);
    NotContained(v, '%', MAGIC_PREV);
    OneModel([v]);
    AcceptsOwnModel([[v]], 0, [v], nul, ack);
    assert !OneReadable([v]) by {
      assert [v][0] == v && !Recognised(v, Previous([v], [v], 0));
    }
  }

  lemma AgreesIfPrefix(models: seq<Queue>, q: Queue, nul: string)
    requires 1 <= |models| <= 2 && MinLength(models) <= |q| <= MinLength(models) + 2
    requires exists m :: 0 <= m < |models| && HasPrefix(models[m], q, MinLength(models))
    ensures Agrees(models, q, nul)
  {
    var minL := MinLength(models);
    var m :| 0 <= m < |models| && HasPrefix(models[m], q, minL);
    forall i | 0 <= i < minL ensures SomeModelHas(models, i, ElementOr(q, i, nul)) {
      assert models[m][i] == models[m][..minL][i] == q[..minL][i];
    }
  }

  predicate HasPrefix(model: Queue, q: Queue, n: nat) { n <= |model| && n <= |q| && model[..n] == q[..n] }
}
