/**
 * The script that validates a recovered key-value store: inserts and gets of extra keys, a get of every key of the
 * model, and on demand deletes of all keys and gets that must find nothing.
 */
module MapScript {
  import opened Wrappers
  import opened OracleMatch
  import opened MapOracle

  // ---- The store under test ----

  type Store = map<string, string>

  function Lookup(m: Store, key: string): string { if key in m then m[key] else NULL }

  function Apply(m: Store, op: MOp): Store {
    match op
    case Insert(k, v) => m[k := v]
    case Delete(k) => m - {k}
    case Get(_) => m
  }

  function StoreAfter(ops: seq<MOp>): Store {
    if ops == [] then map[] else Apply(StoreAfter(ops[..|ops| - 1]), ops[|ops| - 1])
  }

  /** The store agrees with the value read off the operations. */
  lemma {:induction false} LookupIsValueAfter(ops: seq<MOp>, key: string)
    ensures Lookup(StoreAfter(ops), key) == ValueAfter(ops, key)
  {
    if ops != [] {
      LookupIsValueAfter(ops[..|ops| - 1], key);
    }
  }

  /** What the program prints: the value of a get, `ack` for anything else. */
  function Output(m: Store, op: MOp, ack: string): string { if op.Get? then Lookup(m, op.key) else ack }

  // ---- The script ----

  datatype Line = Line(input: MOp, oracle: string)

  function Inputs(lines: seq<Line>): seq<MOp> { seq(|lines|, i requires 0 <= i < |lines| => lines[i].input) }

  function Oracles(lines: seq<Line>): seq<string> { seq(|lines|, i requires 0 <= i < |lines| => lines[i].oracle) }

  function Inserts(keys: seq<string>): seq<Line> {
    seq(|keys|, i requires 0 <= i < |keys| => Line(Insert(keys[i], keys[i]), ""))
  }

  function Deletes(keys: seq<string>): seq<Line> {
    seq(|keys|, i requires 0 <= i < |keys| => Line(Delete(keys[i]), ""))
  }

  function OwnGets(keys: seq<string>): seq<Line> {
    seq(|keys|, i requires 0 <= i < |keys| => Line(Get(keys[i]), keys[i]))
  }

  function NullGets(keys: seq<string>): seq<Line> {
    seq(|keys|, i requires 0 <= i < |keys| => Line(Get(keys[i]), NULL))
  }

  function ModelGets(model: map<string, string>, keys: seq<string>): seq<Line>
    requires forall i :: 0 <= i < |keys| ==> keys[i] in model
  {
    seq(|keys|, i requires 0 <= i < |keys| => Line(Get(keys[i]), model[keys[i]]))
  }

  function Script(model: map<string, string>, keys: seq<string>, extra: seq<string>, needDel: bool): seq<Line>
    requires forall i :: 0 <= i < |keys| ==> keys[i] in model
  {
    Inserts(extra) + OwnGets(extra) + ModelGets(model, keys)
    + if needDel then Deletes(keys) + NullGets(keys) else []
  }

  /** Both lists hold the lines. */
  ghost predicate Written(lines: seq<Line>, inputs: seq<MOp>, oracles: seq<string>) {
    inputs == Inputs(lines) && oracles == Oracles(lines)
  }

  lemma WrittenNext(lines: seq<Line>, more: seq<Line>, i: nat, inputs: seq<MOp>, oracles: seq<string>)
    requires i < |more| && Written(lines + more[..i], inputs, oracles)
    ensures Written(lines + more[..i + 1], inputs + [more[i].input], oracles + [more[i].oracle])
    ensures i + 1 == |more| ==> lines + more[..i + 1] == lines + more
  {
    assert lines + more[..i + 1] == lines + more[..i] + [more[i]];
  }

  /** The part that only LSOPValidator has. */
  method GenExtra(extra: seq<string>) returns (inputs: seq<MOp>, oracles: seq<string>)
    ensures Written(Inserts(extra) + OwnGets(extra), inputs, oracles)
  {
    inputs, oracles := [], [];
    for i := 0 to |extra|
      invariant Written([] + Inserts(extra)[..i], inputs, oracles)
    {
      WrittenNext([], Inserts(extra), i, inputs, oracles);
      inputs, oracles := inputs + [Insert(extra[i], extra[i])], oracles + [""];
    }
    assert [] + Inserts(extra)[..|extra|] == Inserts(extra) + OwnGets(extra)[..0];
    for i := 0 to |extra|
      invariant Written(Inserts(extra) + OwnGets(extra)[..i], inputs, oracles)
    {
      WrittenNext(Inserts(extra), OwnGets(extra), i, inputs, oracles);
      inputs, oracles := inputs + [Get(extra[i])], oracles + [extra[i]];
    }
    assert OwnGets(extra)[..|extra|] == OwnGets(extra);
  }

  /** The part that checks that the keys can be deleted. */
  method GenDeletes(keys: seq<string>) returns (inputs: seq<MOp>, oracles: seq<string>)
    ensures Written(Deletes(keys) + NullGets(keys), inputs, oracles)
  {
    inputs, oracles := [], [];
    for i := 0 to |keys|
      invariant Written([] + Deletes(keys)[..i], inputs, oracles)
    {
      WrittenNext([], Deletes(keys), i, inputs, oracles);
      inputs, oracles := inputs + [Delete(keys[i])], oracles + [""];
    }
    assert [] + Deletes(keys)[..|keys|] == Deletes(keys) + NullGets(keys)[..0];
    for i := 0 to |keys|
      invariant Written(Deletes(keys) + NullGets(keys)[..i], inputs, oracles)
    {
      WrittenNext(Deletes(keys), NullGets(keys), i, inputs, oracles);
      inputs, oracles := inputs + [Get(keys[i])], oracles + [NULL];
    }
    assert NullGets(keys)[..|keys|] == NullGets(keys);
  }

  /** gen_val_input_and_oracle. `keys` is the order in which the dictionary yields the keys of the model. Without
      extra keys it is the validator of races, with them that of a single interrupted operation. */
  method GenScript(model: map<string, string>, keys: seq<string>, extra: seq<string>, needDel: bool)
    returns (inputs: seq<MOp>, oracles: seq<string>)
    requires forall i :: 0 <= i < |keys| ==> keys[i] in model
    ensures Written(Script(model, keys, extra, needDel), inputs, oracles)
  {
    inputs, oracles := GenExtra(extra);
    ghost var lines := Inserts(extra) + OwnGets(extra);
    assert lines + ModelGets(model, keys)[..0] == lines;
    for i := 0 to |keys|
      invariant Written(lines + ModelGets(model, keys)[..i], inputs, oracles)
    {
      WrittenNext(lines, ModelGets(model, keys), i, inputs, oracles);
      inputs, oracles := inputs + [Get(keys[i])], oracles + [model[keys[i]]];
    }
    assert ModelGets(model, keys)[..|keys|] == ModelGets(model, keys);
    if needDel {
      var moreInputs, moreOracles := GenDeletes(keys);
      inputs, oracles := inputs + moreInputs, oracles + moreOracles;
    }
  }

  // ---- Running it ----

  function After(m: Store, lines: seq<Line>): Store {
    if lines == [] then m else Apply(After(m, lines[..|lines| - 1]), lines[|lines| - 1].input)
  }

  function Outputs(m: Store, lines: seq<Line>, ack: string): seq<string> {
    seq(|lines|, i requires 0 <= i < |lines| => Output(After(m, lines[..i]), lines[i].input, ack))
  }

  /** The validator reports nothing. */
  ghost predicate Accepts(m: Store, lines: seq<Line>, ack: string) {
    AllAccepted(Outputs(m, lines, ack), Oracles(lines))
  }

  lemma {:induction false} AfterConcat(m: Store, xs: seq<Line>, ys: seq<Line>)
    ensures After(m, xs + ys) == After(After(m, xs), ys)
    decreases |ys|
  {
    if ys == [] {
      assert xs + ys == xs;
    } else {
      assert (xs + ys)[..|xs + ys| - 1] == xs + ys[..|ys| - 1];
      AfterConcat(m, xs, ys[..|ys| - 1]);
    }
  }

  lemma {:induction false} GetsKeep(m: Store, lines: seq<Line>)
    requires forall i :: 0 <= i < |lines| ==> lines[i].input.Get?
    ensures After(m, lines) == m
  {
    if lines != [] {
      GetsKeep(m, lines[..|lines| - 1]);
    }
  }

  lemma {:induction false} InsertsHold(m: Store, keys: seq<string>, key: string)
    ensures Lookup(After(m, Inserts(keys)), key) == if key in keys then key else Lookup(m, key)
  {
    if keys != [] {
      var n := |keys| - 1;
      assert Inserts(keys)[..n] == Inserts(keys[..n]) && keys == keys[..n] + [keys[n]];
      InsertsHold(m, keys[..n], key);
    }
  }

  lemma {:induction false} DeletesDrop(m: Store, keys: seq<string>, key: string)
    ensures Lookup(After(m, Deletes(keys)), key) == if key in keys then NULL else Lookup(m, key)
  {
    if keys != [] {
      var n := |keys| - 1;
      assert Deletes(keys)[..n] == Deletes(keys[..n]) && keys == keys[..n] + [keys[n]];
      DeletesDrop(m, keys[..n], key);
    }
  }

  // ---- What it accepts ----

  /** What was printed last, skipped lines aside, when `p` was before these lines. */
  function Last(m: Store, p: Option<string>, lines: seq<Line>, ack: string): Option<string> {
    if lines == [] then p
    else
      var front, line := lines[..|lines| - 1], lines[|lines| - 1];
      if line.oracle == "" then Last(m, p, front, ack) else Some(Output(After(m, front), line.input, ack))
  }

  /** Every line is skipped or accepts what is printed there. */
  predicate Pass(m: Store, p: Option<string>, lines: seq<Line>, ack: string) {
    lines == [] ||
    var front, line := lines[..|lines| - 1], lines[|lines| - 1];
    && Pass(m, p, front, ack)
    && Lets(Output(After(m, front), line.input, ack), line.oracle, Last(m, p, front, ack))
  }

  lemma OutputsNext(m: Store, lines: seq<Line>, ack: string)
    requires lines != []
    ensures var n := |lines| - 1;
            Outputs(m, lines, ack) == Outputs(m, lines[..n], ack) + [Output(After(m, lines[..n]), lines[n].input, ack)]
  {
    var n := |lines| - 1;
    forall i | 0 <= i < n ensures Outputs(m, lines, ack)[i] == Outputs(m, lines[..n], ack)[i] {
      assert lines[..n][..i] == lines[..i];
    }
  }

  lemma OraclesNext(lines: seq<Line>)
    requires lines != []
    ensures var n := |lines| - 1; Oracles(lines) == Oracles(lines[..n]) + [lines[n].oracle]
  {
  }

  lemma {:induction false} AcceptsIsPass(m: Store, lines: seq<Line>, ack: string)
    ensures Accepts(m, lines, ack) <==> Pass(m, None, lines, ack)
    ensures Previous(Outputs(m, lines, ack), Oracles(lines), |lines|) == Last(m, None, lines, ack)
  {
    if lines != [] {
      var n := |lines| - 1;
      AcceptsIsPass(m, lines[..n], ack);
      OutputsNext(m, lines, ack);
      OraclesNext(lines);
      var output := Output(After(m, lines[..n]), lines[n].input, ack);
      AllAcceptedNext(Outputs(m, lines[..n], ack), output, Oracles(lines[..n]), lines[n].oracle);
      PreviousNext(Outputs(m, lines[..n], ack), output, Oracles(lines[..n]), lines[n].oracle);
    }
  }

  lemma {:induction false} PassConcat(m: Store, p: Option<string>, xs: seq<Line>, ys: seq<Line>, ack: string)
    ensures Pass(m, p, xs + ys, ack) <==> Pass(m, p, xs, ack) && Pass(After(m, xs), Last(m, p, xs, ack), ys, ack)
    ensures Last(m, p, xs + ys, ack) == Last(After(m, xs), Last(m, p, xs, ack), ys, ack)
    decreases |ys|
  {
    if ys == [] {
      assert xs + ys == xs;
    } else {
      var n := |ys| - 1;
      assert (xs + ys)[..|xs + ys| - 1] == xs + ys[..n];
      PassConcat(m, p, xs, ys[..n], ack);
      AfterConcat(m, xs, ys[..n]);
    }
  }

  lemma {:induction false} BlanksPass(m: Store, p: Option<string>, lines: seq<Line>, ack: string)
    requires forall i :: 0 <= i < |lines| ==> lines[i].oracle == ""
    ensures Pass(m, p, lines, ack) && Last(m, p, lines, ack) == p
  {
    if lines != [] {
      BlanksPass(m, p, lines[..|lines| - 1], ack);
    }
  }

  /** Gets of keys that hold exactly what their lines say. */
  lemma {:induction false} ExactGetsPass(m: Store, p: Option<string>, lines: seq<Line>, ack: string)
    requires forall i :: 0 <= i < |lines| ==>
               lines[i].input.Get? && lines[i].oracle == Lookup(m, lines[i].input.key) && NoMagic(lines[i].oracle)
    ensures Pass(m, p, lines, ack)
    ensures Last(m, p, lines, ack) == LastOracle(p, lines)
  {
    if lines != [] {
      var n := |lines| - 1;
      ExactGetsPass(m, p, lines[..n], ack);
      GetsKeep(m, lines[..n]);
      MatchesSelf(lines[n].oracle, Last(m, p, lines[..n], ack));
    }
  }

  function LastOracle(p: Option<string>, lines: seq<Line>): Option<string> {
    if lines == [] then p
    else if lines[|lines| - 1].oracle == "" then LastOracle(p, lines[..|lines| - 1])
    else Some(lines[|lines| - 1].oracle)
  }

  /** The extra keys are found as they were inserted, and no other key changes. */
  lemma ExtraPass(m: Store, extra: seq<string>, ack: string)
    requires forall i :: 0 <= i < |extra| ==> NoMagic(extra[i])
    ensures var head := Inserts(extra) + OwnGets(extra);
            && Pass(m, None, head, ack) && Last(m, None, head, ack) == LastOracle(None, OwnGets(extra))
            && forall key :: key !in extra ==> Lookup(After(m, head), key) == Lookup(m, key)
  {
    var m' := After(m, Inserts(extra));
    BlanksPass(m, None, Inserts(extra), ack);
    PassConcat(m, None, Inserts(extra), OwnGets(extra), ack);
    forall key ensures Lookup(m', key) == if key in extra then key else Lookup(m, key) {
      InsertsHold(m, extra, key);
    }
    ExactGetsPass(m', None, OwnGets(extra), ack);
    AfterConcat(m, Inserts(extra), OwnGets(extra));
    GetsKeep(m', OwnGets(extra));
  }

  /** Once deleted, the keys are not found. */
  lemma DeletesPass(m: Store, p: Option<string>, keys: seq<string>, ack: string)
    ensures Pass(m, p, Deletes(keys) + NullGets(keys), ack)
  {
    var m' := After(m, Deletes(keys));
    BlanksPass(m, p, Deletes(keys), ack);
    PassConcat(m, p, Deletes(keys), NullGets(keys), ack);
    assert NoMagic(NULL) by { NullIsPlain(); }
    var gets := NullGets(keys);
    forall i | 0 <= i < |gets|
      ensures gets[i].input.Get? && gets[i].oracle == NULL == Lookup(m', gets[i].input.key)
    {
      DeletesDrop(m, keys, keys[i]);
    }
    ExactGetsPass(m', p, gets, ack);
  }

  /** What is printed last before the get of key number `i`, skipped lines aside. */
  function Before(m: Store, model: map<string, string>, keys: seq<string>, extra: seq<string>, i: nat): Option<string>
    requires i <= |keys| && forall j :: 0 <= j < |keys| ==> keys[j] in model
  {
    if i == 0 then LastOracle(None, OwnGets(extra))
    else if model[keys[i - 1]] == "" then Before(m, model, keys, extra, i - 1)
    else Some(Lookup(m, keys[i - 1]))
  }

  /** The line of a key is skipped or accepts what the store holds. */
  predicate KeyPasses(m: Store, model: map<string, string>, keys: seq<string>, extra: seq<string>, i: nat)
    requires i < |keys| && forall j :: 0 <= j < |keys| ==> keys[j] in model
  {
    Lets(Lookup(m, keys[i]), model[keys[i]], Before(m, model, keys, extra, i))
  }

  predicate KeysPass(m: Store, model: map<string, string>, keys: seq<string>, extra: seq<string>, n: nat)
    requires n <= |keys| && forall j :: 0 <= j < |keys| ==> keys[j] in model
  {
    n == 0 || (KeysPass(m, model, keys, extra, n - 1) && KeyPasses(m, model, keys, extra, n - 1))
  }

  lemma {:induction false} KeysPassIff(m: Store, model: map<string, string>, keys: seq<string>, extra: seq<string>,
                                       n: nat)
    requires n <= |keys| && forall j :: 0 <= j < |keys| ==> keys[j] in model
    ensures KeysPass(m, model, keys, extra, n) <==> forall i :: 0 <= i < n ==> KeyPasses(m, model, keys, extra, i)
  {
    if n > 0 {
      KeysPassIff(m, model, keys, extra, n - 1);
    }
  }

  /** The first `n` gets of the modelled keys, on a store that agrees with `m` on them. */
  lemma {:induction false} ModelGetsPass(m: Store, m': Store, model: map<string, string>, keys: seq<string>,
                                         extra: seq<string>, n: nat, ack: string)
    requires n <= |keys| && forall j :: 0 <= j < |keys| ==> keys[j] in model
    requires forall j :: 0 <= j < |keys| ==> Lookup(m', keys[j]) == Lookup(m, keys[j])
    ensures var p, lines := LastOracle(None, OwnGets(extra)), ModelGets(model, keys)[..n];
            && (Pass(m', p, lines, ack) <==> KeysPass(m, model, keys, extra, n))
            && Last(m', p, lines, ack) == Before(m, model, keys, extra, n)
  {
    if n > 0 {
      var lines := ModelGets(model, keys);
      assert lines[..n][..n - 1] == lines[..n - 1];
      ModelGetsPass(m, m', model, keys, extra, n - 1, ack);
      GetsKeep(m', lines[..n - 1]);
    }
  }

  ghost predicate Keyed(model: map<string, string>, keys: seq<string>, extra: seq<string>) {
    && (forall i :: 0 <= i < |keys| ==> keys[i] in model)
    && (forall i :: 0 <= i < |extra| ==> NoMagic(extra[i]) && extra[i] !in keys)
  }

  /** Whatever the values are: the script accepts a recovered store exactly when the line of every modelled key does.
      The extra keys, the deletes and what follows them never complain. */
  lemma AcceptsByKey(m: Store, model: map<string, string>, keys: seq<string>, extra: seq<string>, needDel: bool,
                     ack: string)
    requires Keyed(model, keys, extra)
    ensures Accepts(m, Script(model, keys, extra, needDel), ack) <==>
            forall i :: 0 <= i < |keys| ==> KeyPasses(m, model, keys, extra, i)
  {
    var head, gets := Inserts(extra) + OwnGets(extra), ModelGets(model, keys);
    AcceptsIsPass(m, Script(model, keys, extra, needDel), ack);
    ExtraPass(m, extra, ack);
    PassConcat(m, None, head, gets, ack);
    ModelGetsPass(m, After(m, head), model, keys, extra, |keys|, ack);
    KeysPassIff(m, model, keys, extra, |keys|);
    assert gets[..|keys|] == gets;
    if needDel {
      PassConcat(m, None, head + gets, Deletes(keys) + NullGets(keys), ack);
      DeletesPass(After(m, head + gets), Last(m, None, head + gets, ack), keys, ack);
    } else {
      assert head + gets + [] == head + gets;
    }
  }

  predicate BothPass(m: Store, m': Store, model: map<string, string>, keys: seq<string>, extra: seq<string>, i: nat)
    requires i < |keys| && forall j :: 0 <= j < |keys| ==> keys[j] in model
  {
    KeyPasses(m, model, keys, extra, i) && KeyPasses(m', model, keys, extra, i)
  }

  lemma BothAccepted(m: Store, m': Store, model: map<string, string>, keys: seq<string>, extra: seq<string>,
                     needDel: bool, ack: string)
    requires Keyed(model, keys, extra)
    ensures var script := Script(model, keys, extra, needDel);
            Accepts(m, script, ack) && Accepts(m', script, ack) <==>
            forall i :: 0 <= i < |keys| ==> BothPass(m, m', model, keys, extra, i)
  {
    AcceptsByKey(m, model, keys, extra, needDel, ack);
    AcceptsByKey(m', model, keys, extra, needDel, ack);
    forall i | 0 <= i < |keys|
      ensures BothPass(m, m', model, keys, extra, i) <==>
              KeyPasses(m, model, keys, extra, i) && KeyPasses(m', model, keys, extra, i)
    {
    }
  }

  /** A line with these alternatives is skipped, or the output is one of them. */
  predicate Fine(output: string, vs: seq<string>) { vs == [""] || output in vs }

  ghost predicate ScriptFits(model: map<string, string>, keys: seq<string>, extra: seq<string>,
                             alts: string -> seq<string>)
  {
    && Keyed(model, keys, extra)
    && forall i :: 0 <= i < |keys| ==> Separable(alts(keys[i])) && model[keys[i]] == Join(alts(keys[i]))
  }

  /** For alternatives that can be told apart: exactly when every key of the model has one of its alternatives, or its
      line is skipped. */
  lemma AcceptsIff(m: Store, model: map<string, string>, keys: seq<string>, extra: seq<string>, needDel: bool,
                   alts: string -> seq<string>, ack: string)
    requires ScriptFits(model, keys, extra, alts)
    ensures Accepts(m, Script(model, keys, extra, needDel), ack) <==>
            forall i :: 0 <= i < |keys| ==> Fine(Lookup(m, keys[i]), alts(keys[i]))
  {
    AcceptsByKey(m, model, keys, extra, needDel, ack);
    forall i | 0 <= i < |keys|
      ensures KeyPasses(m, model, keys, extra, i) <==> Fine(Lookup(m, keys[i]), alts(keys[i]))
    {
      MatchesAlternatives(Lookup(m, keys[i]), alts(keys[i]), Before(m, model, keys, extra, i));
      JoinEmptyIff(alts(keys[i]));
    }
  }

  // ---- The permitted stores ----

  ghost predicate LsModelled(model: map<string, string>, keys: seq<string>, before: seq<MOp>, op: MOp) {
    forall i :: 0 <= i < |keys| ==>
      keys[i] in model && model[keys[i]] == LsOracle(before, op, keys[i])
  }

  ghost predicate NewKeys(extra: seq<string>, keys: seq<string>) {
    forall i :: 0 <= i < |extra| ==> NoMagic(extra[i]) && extra[i] !in keys
  }

  /** One interrupted operation, alternatives that can be told apart: accepted are exactly the stores whose modelled
      keys have the value just before or just after it, skipped lines aside. */
  lemma LsScriptExact(m: Store, before: seq<MOp>, op: MOp, model: map<string, string>, keys: seq<string>,
                      extra: seq<string>, needDel: bool, ack: string)
    requires LsModelled(model, keys, before, op) && NewKeys(extra, keys)
    requires forall i :: 0 <= i < |keys| ==> Separable(LsAlternatives(before, op, keys[i]))
    ensures Accepts(m, Script(model, keys, extra, needDel), ack) <==>
            forall i :: 0 <= i < |keys| ==>
              LsSkipped(before, op, keys[i]) || LsAllows(before, op, keys[i], Lookup(m, keys[i]))
  {
    AcceptsIff(m, model, keys, extra, needDel, key => LsAlternatives(before, op, key), ack);
    forall i | 0 <= i < |keys|
      ensures Fine(Lookup(m, keys[i]), LsAlternatives(before, op, keys[i])) <==>
              LsSkipped(before, op, keys[i]) || LsAllows(before, op, keys[i], Lookup(m, keys[i]))
    {
      LsAlternativesExact(before, op, keys[i], Lookup(m, keys[i]));
      LsOracleSkipped(before, op, keys[i]);
      JoinEmptyIff(LsAlternatives(before, op, keys[i]));
    }
  }

  /** The alternatives of key number `i`, after what the two stores print before it. */
  ghost predicate ReadableAt(m: Store, m': Store, model: map<string, string>, keys: seq<string>, extra: seq<string>,
                             i: nat, vs: seq<string>)
    requires i < |keys| && 1 <= |vs| <= 2 && forall j :: 0 <= j < |keys| ==> keys[j] in model
  {
    LineReadable(vs, Before(m, model, keys, extra, i), Before(m', model, keys, extra, i))
  }

  /** Whatever the values are: the store with the interrupted operation and the one without it are both accepted if
      and only if every line is readable. */
  lemma LsNoFalseAlarm(before: seq<MOp>, op: MOp, model: map<string, string>, keys: seq<string>,
                       extra: seq<string>, needDel: bool, ack: string)
    requires LsModelled(model, keys, before, op) && NewKeys(extra, keys)
    ensures var m, m', script := StoreAfter(before + [op]), StoreAfter(before), Script(model, keys, extra, needDel);
            Accepts(m, script, ack) && Accepts(m', script, ack) <==>
            forall i :: 0 <= i < |keys| ==>
              ReadableAt(m, m', model, keys, extra, i, LsAlternatives(before, op, keys[i]))
  {
    var m, m' := StoreAfter(before + [op]), StoreAfter(before);
    BothAccepted(m, m', model, keys, extra, needDel, ack);
    forall i | 0 <= i < |keys|
      ensures BothPass(m, m', model, keys, extra, i) <==>
              ReadableAt(m, m', model, keys, extra, i, LsAlternatives(before, op, keys[i]))
    {
      LsKeyReadable(before, op, model, keys, extra, i);
    }
  }

  lemma LsKeyReadable(before: seq<MOp>, op: MOp, model: map<string, string>, keys: seq<string>, extra: seq<string>,
                      i: nat)
    requires LsModelled(model, keys, before, op) && i < |keys|
    ensures var m, m' := StoreAfter(before + [op]), StoreAfter(before);
            BothPass(m, m', model, keys, extra, i) <==>
            ReadableAt(m, m', model, keys, extra, i, LsAlternatives(before, op, keys[i]))
  {
    var m, m' := StoreAfter(before + [op]), StoreAfter(before);
    LookupIsValueAfter(before, keys[i]);
    LookupIsValueAfter(before + [op], keys[i]);
    LsLineReadable(before, op, keys[i], Before(m, model, keys, extra, i), Before(m', model, keys, extra, i));
  }

  ghost predicate RaceModelled(model: map<string, string>, keys: seq<string>, prefix: seq<MOp>, op0: MOp, op1: MOp,
                               firstDone: bool, seen: string)
  {
    forall i :: 0 <= i < |keys| ==>
      keys[i] in model && model[keys[i]] == RaceOracle(prefix, op0, op1, firstDone, seen, keys[i])
  }

  lemma RaceScriptExact(m: Store, prefix: seq<MOp>, op0: MOp, op1: MOp, firstDone: bool, seen: string,
                        model: map<string, string>, keys: seq<string>, needDel: bool, ack: string)
    requires RaceModelled(model, keys, prefix, op0, op1, firstDone, seen)
    requires forall i :: 0 <= i < |keys| ==> Separable(RaceAlternatives(prefix, op0, op1, firstDone, seen, keys[i]))
    ensures Accepts(m, Script(model, keys, [], needDel), ack) <==>
            forall i :: 0 <= i < |keys| ==>
              || RaceSkipped(prefix, op0, op1, firstDone, seen, keys[i])
              || RaceAllows(prefix, op0, op1, firstDone, seen, keys[i], Lookup(m, keys[i]))
  {
    AcceptsIff(m, model, keys, [], needDel, key => RaceAlternatives(prefix, op0, op1, firstDone, seen, key), ack);
    forall i | 0 <= i < |keys|
      ensures Fine(Lookup(m, keys[i]), RaceAlternatives(prefix, op0, op1, firstDone, seen, keys[i])) <==>
              || RaceSkipped(prefix, op0, op1, firstDone, seen, keys[i])
              || RaceAllows(prefix, op0, op1, firstDone, seen, keys[i], Lookup(m, keys[i]))
    {
      RaceAlternativesExact(prefix, op0, op1, firstDone, seen, keys[i], Lookup(m, keys[i]));
      RaceOracleSkipped(prefix, op0, op1, firstDone, seen, keys[i]);
      JoinEmptyIff(RaceAlternatives(prefix, op0, op1, firstDone, seen, keys[i]));
    }
  }

  /** The stores that a race may leave: with both operations, or without the first unless it was done. */
  predicate RaceStore(prefix: seq<MOp>, op0: MOp, op1: MOp, firstDone: bool, m: Store) {
    m == StoreAfter(prefix + [op0] + [op1]) || (!firstDone && m == StoreAfter(prefix + [op1]))
  }

  /** Permitted stores that hold what a racing get printed: the two together, or each alone when the get reads the key
      of the first operation and so tells them apart. */
  ghost predicate RacePair(prefix: seq<MOp>, op0: MOp, op1: MOp, firstDone: bool, seen: string, m: Store, m': Store) {
    && RaceStore(prefix, op0, op1, firstDone, m) && RaceStore(prefix, op0, op1, firstDone, m')
    && (op1.Get? ==> seen == Lookup(m, op1.key) == Lookup(m', op1.key))
    && (if op1 == Get(op0.key) then m == m'
        else m == StoreAfter(prefix + [op0] + [op1]) && (firstDone || m' == StoreAfter(prefix + [op1])))
  }

  /** Whatever the values are: such stores are accepted if and only if every line is readable. */
  lemma RaceNoFalseAlarm(m: Store, m': Store, prefix: seq<MOp>, op0: MOp, op1: MOp, firstDone: bool, seen: string,
                         model: map<string, string>, keys: seq<string>, needDel: bool, ack: string)
    requires RaceModelled(model, keys, prefix, op0, op1, firstDone, seen)
    requires RacePair(prefix, op0, op1, firstDone, seen, m, m')
    ensures var script := Script(model, keys, [], needDel);
            Accepts(m, script, ack) && Accepts(m', script, ack) <==>
            forall i :: 0 <= i < |keys| ==>
              ReadableAt(m, m', model, keys, [], i, RaceAlternatives(prefix, op0, op1, firstDone, seen, keys[i]))
  {
    BothAccepted(m, m', model, keys, [], needDel, ack);
    forall i | 0 <= i < |keys|
      ensures BothPass(m, m', model, keys, [], i) <==>
              ReadableAt(m, m', model, keys, [], i, RaceAlternatives(prefix, op0, op1, firstDone, seen, keys[i]))
    {
      RaceKeyReadable(m, m', prefix, op0, op1, firstDone, seen, model, keys, i);
    }
  }

  lemma RaceKeyReadable(m: Store, m': Store, prefix: seq<MOp>, op0: MOp, op1: MOp, firstDone: bool, seen: string,
                        model: map<string, string>, keys: seq<string>, i: nat)
    requires RaceModelled(model, keys, prefix, op0, op1, firstDone, seen) && i < |keys|
    requires RacePair(prefix, op0, op1, firstDone, seen, m, m')
    ensures BothPass(m, m', model, keys, [], i) <==>
            ReadableAt(m, m', model, keys, [], i, RaceAlternatives(prefix, op0, op1, firstDone, seen, keys[i]))
  {
    RaceValuesLeft(m, m', prefix, op0, op1, firstDone, seen, keys[i]);
    RaceLineReadable(prefix, op0, op1, firstDone, seen, keys[i], Lookup(m, keys[i]), Lookup(m', keys[i]),
                     Before(m, model, keys, [], i), Before(m', model, keys, [], i));
  }

  lemma RaceValuesLeft(m: Store, m': Store, prefix: seq<MOp>, op0: MOp, op1: MOp, firstDone: bool, seen: string,
                       key: string)
    requires RacePair(prefix, op0, op1, firstDone, seen, m, m')
    ensures RaceLeaves(prefix, op0, op1, firstDone, seen, key, Lookup(m, key), Lookup(m', key))
  {
    LookupIsValueAfter(prefix + [op0] + [op1], key);
    LookupIsValueAfter(prefix + [op1], key);
    RaceValues(prefix, op0, op1, key);
  }

  // ---- What any program must print ----

  /** Whatever printed these outputs: they are accepted only if every key, once deleted, reads as null. */
  lemma AcceptedMeansDeleted(model: map<string, string>, keys: seq<string>, extra: seq<string>, outputs: seq<string>,
                             i: nat)
    requires (forall j :: 0 <= j < |keys| ==> keys[j] in model) && i < |keys|
    requires AllAccepted(outputs, Oracles(Script(model, keys, extra, true)))
    ensures var script, d := Script(model, keys, extra, true), 2 * |extra| + |keys| + i;
            var g := d + |keys|;
            && g < |script| && script[d].input == Delete(keys[i]) && script[g].input == Get(keys[i])
            && outputs[g] == NULL
  {
    var script, g := Script(model, keys, extra, true), 2 * |extra| + 2 * |keys| + i;
    assert script[g] == Line(Get(keys[i]), NULL);
    assert AcceptedAt(outputs, Oracles(script), g);
    OnlyNull(outputs[g], Previous(outputs, Oracles(script), g));
  }

  lemma OnlyNull(output: string, prev: Option<string>)
    requires Lets(output, NULL, prev)
    ensures output == NULL
  {
    PlainChars(NULL);
    MatchesAlternatives(output, [NULL], prev);
  }

  /** And only if every extra key reads as it was inserted. */
  lemma AcceptedMeansInserted(model: map<string, string>, keys: seq<string>, extra: seq<string>, needDel: bool,
                              outputs: seq<string>, i: nat)
    requires (forall j :: 0 <= j < |keys| ==> keys[j] in model) && i < |extra| && NoMagic(extra[i]) && extra[i] != ""
    requires AllAccepted(outputs, Oracles(Script(model, keys, extra, needDel)))
    ensures var script, g := Script(model, keys, extra, needDel), |extra| + i;
            && g < |script| && script[i].input == Insert(extra[i], extra[i]) && script[g].input == Get(extra[i])
            && outputs[g] == extra[i]
  {
    var script, g := Script(model, keys, extra, needDel), |extra| + i;
    assert script[g] == Line(Get(extra[i]), extra[i]);
    assert AcceptedAt(outputs, Oracles(script), g);
    MatchesAlternatives(outputs[g], [extra[i]], Previous(outputs, Oracles(script), g));
  }

  // ---- From the operations to the verdict ----

  /** A script as the lines of its two files. */
  function Zip(inputs: seq<MOp>, oracles: seq<string>): seq<Line>
    requires |inputs| == |oracles|
  {
    seq(|inputs|, i requires 0 <= i < |inputs| => Line(inputs[i], oracles[i]))
  }

  lemma ZipWritten(lines: seq<Line>, inputs: seq<MOp>, oracles: seq<string>)
    requires Written(lines, inputs, oracles)
    ensures |inputs| == |oracles| && Zip(inputs, oracles) == lines
  {
  }

  /** Some order of the keys of a dictionary. */
  method KeysOf(model: map<string, string>) returns (keys: seq<string>)
    ensures forall key :: key in keys <==> key in model
    ensures |keys| == |model|
  {
    keys := [];
    var rest := model.Keys;
    while rest != {}
      invariant rest <= model.Keys && forall key :: key in keys <==> key in model.Keys - rest
      invariant |keys| + |rest| == |model.Keys|
      decreases |rest|
    {
      var key :| key in rest;
      keys, rest := keys + [key], rest - {key};
    }
  }

  /** The prefix and the interrupted operation; past the end nothing is interrupted, as if a get were. */
  function LsCut(ops: seq<MOp>, idx: nat): (seq<MOp>, MOp) {
    if idx < |ops| then (ops[..idx], ops[idx]) else (ops, Get(""))
  }

  predicate LsKey(before: seq<MOp>, op: MOp, key: string) { Inserted(before, key) || (!op.Get? && op.key == key) }

  /** What the values and the extra keys must be like: alternatives that can be told apart, extra keys that are new. */
  ghost predicate LsFits(before: seq<MOp>, op: MOp, extra: seq<string>) {
    && (forall key :: LsKey(before, op, key) ==> Separable(LsAlternatives(before, op, key)))
    && (forall i :: 0 <= i < |extra| ==> NoMagic(extra[i]) && !LsKey(before, op, extra[i]))
  }

  /** Every key that the operations touched has a permitted value, skipped lines aside. */
  ghost predicate LsPermitted(before: seq<MOp>, op: MOp, m: Store) {
    forall key :: LsKey(before, op, key) ==>
      LsSkipped(before, op, key) || LsAllows(before, op, key, Lookup(m, key))
  }

  /** LSOPValidator from the operations to the script: run on any recovered store, what it writes is accepted exactly
      when the store is permitted. */
  method LsValidation(ops: seq<MOp>, idx: nat, extra: seq<string>, needDel: bool)
    returns (inputs: seq<MOp>, oracles: seq<string>)
    ensures |inputs| == |oracles|
    ensures var (before, op) := LsCut(ops, idx);
            LsFits(before, op, extra) ==>
              forall m, ack :: Accepts(m, Zip(inputs, oracles), ack) <==> LsPermitted(before, op, m)
  {
    var model := LsModel(ops, idx);
    var keys := KeysOf(model);
    inputs, oracles := GenScript(model, keys, extra, needDel);
    ghost var (before, op) := LsCut(ops, idx);
    ZipWritten(Script(model, keys, extra, needDel), inputs, oracles);
    if idx >= |ops| {
      forall key ensures LsOracle(before, op, key) == ValueAfter(before, key) {
        NothingInterrupted(before, key);
      }
    }
    if LsFits(before, op, extra) {
      LsKeysModelled(before, op, model, keys);
      forall m, ack ensures Accepts(m, Zip(inputs, oracles), ack) <==> LsPermitted(before, op, m) {
        LsScriptExact(m, before, op, model, keys, extra, needDel, ack);
        LsPermittedKeys(before, op, m, keys);
      }
    }
  }

  lemma LsKeysModelled(before: seq<MOp>, op: MOp, model: map<string, string>, keys: seq<string>)
    requires forall key :: key in keys <==> key in model
    requires forall key :: key in model <==> LsKey(before, op, key)
    requires forall key :: key in model ==> model[key] == LsOracle(before, op, key)
    ensures LsModelled(model, keys, before, op) && forall key :: key in keys <==> LsKey(before, op, key)
  {
    forall i | 0 <= i < |keys| ensures keys[i] in model {
      assert keys[i] in keys;
    }
  }

  /** Past the end nothing is interrupted: each key has one alternative. */
  lemma NothingInterrupted(ops: seq<MOp>, key: string)
    ensures LsOracle(ops, Get(""), key) == ValueAfter(ops, key)
  {
  }

  lemma LsPermittedKeys(before: seq<MOp>, op: MOp, m: Store, keys: seq<string>)
    requires forall key :: key in keys <==> LsKey(before, op, key)
    ensures LsPermitted(before, op, m) <==>
            forall i :: 0 <= i < |keys| ==>
              LsSkipped(before, op, keys[i]) || LsAllows(before, op, keys[i], Lookup(m, keys[i]))
  {
    forall i | 0 <= i < |keys| ensures LsKey(before, op, keys[i]) {
      assert keys[i] in keys;
    }
  }

  predicate RaceKey(prefix: seq<MOp>, op0: MOp, op1: MOp, key: string) {
    Present(prefix, key) || (!op0.Get? && op0.key == key) || op1.key == key
  }

  ghost predicate RaceFits(prefix: seq<MOp>, op0: MOp, op1: MOp, firstDone: bool, seen: string) {
    forall key :: RaceKey(prefix, op0, op1, key) ==>
      Separable(RaceAlternatives(prefix, op0, op1, firstDone, seen, key))
  }

  ghost predicate RacePermitted(prefix: seq<MOp>, op0: MOp, op1: MOp, firstDone: bool, seen: string, m: Store) {
    forall key :: RaceKey(prefix, op0, op1, key) ==>
      || RaceSkipped(prefix, op0, op1, firstDone, seen, key)
      || RaceAllows(prefix, op0, op1, firstDone, seen, key, Lookup(m, key))
  }

  /** OPValidator from the operations to the script of a race. */
  method RaceValidation(prefix: seq<MOp>, op0: MOp, op1: MOp, firstDone: bool, seen: string, needDel: bool)
    returns (inputs: seq<MOp>, oracles: seq<string>)
    ensures |inputs| == |oracles|
    ensures RaceFits(prefix, op0, op1, firstDone, seen) ==>
              forall m, ack ::
                Accepts(m, Zip(inputs, oracles), ack) <==> RacePermitted(prefix, op0, op1, firstDone, seen, m)
  {
    var model := RaceModel(prefix, op0, op1, firstDone, seen);
    var keys := KeysOf(model);
    inputs, oracles := GenScript(model, keys, [], needDel);
    ZipWritten(Script(model, keys, [], needDel), inputs, oracles);
    if RaceFits(prefix, op0, op1, firstDone, seen) {
      RaceKeysModelled(prefix, op0, op1, firstDone, seen, model, keys);
      forall m, ack
        ensures Accepts(m, Zip(inputs, oracles), ack) <==> RacePermitted(prefix, op0, op1, firstDone, seen, m)
      {
        RaceScriptExact(m, prefix, op0, op1, firstDone, seen, model, keys, needDel, ack);
        RacePermittedKeys(prefix, op0, op1, firstDone, seen, m, keys);
      }
    }
  }

  lemma RaceKeysModelled(prefix: seq<MOp>, op0: MOp, op1: MOp, firstDone: bool, seen: string,
                         model: map<string, string>, keys: seq<string>)
    requires forall key :: key in keys <==> key in model
    requires forall key :: key in model <==> RaceKey(prefix, op0, op1, key)
    requires forall key :: key in model ==> model[key] == RaceOracle(prefix, op0, op1, firstDone, seen, key)
    ensures RaceModelled(model, keys, prefix, op0, op1, firstDone, seen)
    ensures forall key :: key in keys <==> RaceKey(prefix, op0, op1, key)
  {
    forall i | 0 <= i < |keys| ensures keys[i] in model {
      assert keys[i] in keys;
    }
  }

  lemma RacePermittedKeys(prefix: seq<MOp>, op0: MOp, op1: MOp, firstDone: bool, seen: string, m: Store,
                          keys: seq<string>)
    requires forall key :: key in keys <==> RaceKey(prefix, op0, op1, key)
    ensures RacePermitted(prefix, op0, op1, firstDone, seen, m) <==>
            forall i :: 0 <= i < |keys| ==>
              || RaceSkipped(prefix, op0, op1, firstDone, seen, keys[i])
              || RaceAllows(prefix, op0, op1, firstDone, seen, keys[i], Lookup(m, keys[i]))
  {
    forall i | 0 <= i < |keys| ensures RaceKey(prefix, op0, op1, keys[i]) {
      assert keys[i] in keys;
    }
  }
}
