/** The oracle for key-value stores: what a get may return after a crash in the middle of an operation. */
module MapOracle {
  import opened OracleMatch
  import opened Wrappers

  const NULL := "(null)"

  datatype MOp = Insert(key: string, value: string) | Delete(key: string) | Get(key: string)

  // ---- The store itself ----

  /** What a get of `key` returns after these operations. */
  function ValueAfter(ops: seq<MOp>, key: string): string {
    if ops == [] then NULL
    else
      var op := ops[|ops| - 1];
      if op.Insert? && op.key == key then op.value
      else if op.Delete? && op.key == key then NULL
      else ValueAfter(ops[..|ops| - 1], key)
  }

  ghost predicate PlainOps(ops: seq<MOp>) {
    forall i :: 0 <= i < |ops| && ops[i].Insert? ==> Plain(ops[i].value)
  }

  lemma NullIsPlain()
    ensures Plain(NULL)
  {
    PlainChars(NULL);
  }

  lemma {:induction false} PlainValue(ops: seq<MOp>, key: string)
    requires PlainOps(ops)
    ensures Plain(ValueAfter(ops, key))
  {
    NullIsPlain();
    if ops != [] {
      PlainValue(ops[..|ops| - 1], key);
    }
  }

  lemma ValueStep(ops: seq<MOp>, op: MOp, key: string)
    ensures ValueAfter(ops + [op], key) ==
            if op.Insert? && op.key == key then op.value
            else if op.Delete? && op.key == key then NULL
            else ValueAfter(ops, key)
  {
    assert (ops + [op])[..|ops|] == ops;
  }

  predicate Touches(op: MOp, key: string) { !op.Get? && op.key == key }

  /** The last operation that touches the key. */
  ghost predicate LastTouch(ops: seq<MOp>, key: string, i: nat) {
    i < |ops| && Touches(ops[i], key) && forall j :: i < j < |ops| ==> !Touches(ops[j], key)
  }

  /** The value is what the last operation that touches the key left, and null if none does. */
  lemma {:induction false} ValueIs(ops: seq<MOp>, key: string, i: nat)
    requires LastTouch(ops, key, i)
    ensures ValueAfter(ops, key) == if ops[i].Insert? then ops[i].value else NULL
    ensures Present(ops, key) <==> ops[i].Insert?
    decreases |ops|
  {
    var n := |ops| - 1;
    if i < n {
      assert LastTouch(ops[..n], key, i);
      ValueIs(ops[..n], key, i);
    }
  }

  lemma {:induction false} UntouchedIsNull(ops: seq<MOp>, key: string)
    requires forall i :: 0 <= i < |ops| ==> !Touches(ops[i], key)
    ensures ValueAfter(ops, key) == NULL && !Present(ops, key)
  {
    if ops != [] {
      UntouchedIsNull(ops[..|ops| - 1], key);
    }
  }

  lemma {:induction false} InsertedIff(ops: seq<MOp>, key: string)
    ensures Inserted(ops, key) <==> exists i :: 0 <= i < |ops| && ops[i].Insert? && ops[i].key == key
  {
    if ops != [] {
      var front := ops[..|ops| - 1];
      InsertedIff(front, key);
      assert forall i :: 0 <= i < |front| ==> front[i] == ops[i];
    }
  }

  /** Some insert of `key` is among these operations. */
  predicate Inserted(ops: seq<MOp>, key: string) {
    ops != [] && ((ops[|ops| - 1].Insert? && ops[|ops| - 1].key == key) || Inserted(ops[..|ops| - 1], key))
  }

  lemma {:induction false} NeverInserted(ops: seq<MOp>, key: string)
    requires !Inserted(ops, key)
    ensures ValueAfter(ops, key) == NULL
  {
    if ops != [] {
      NeverInserted(ops[..|ops| - 1], key);
    }
  }

  // ---- One interrupted operation ----

  /** What a get of `key` may return when `op` was interrupted after `before`. */
  function LsAlternatives(before: seq<MOp>, op: MOp, key: string): seq<string> {
    if op.Get? || op.key != key then [ValueAfter(before, key)]
    else if op.Insert? then [op.value, ValueAfter(before, key)]
    else if Inserted(before, key) then [NULL, ValueAfter(before, key)]
    else [NULL]
  }

  function LsOracle(before: seq<MOp>, op: MOp, key: string): string { Join(LsAlternatives(before, op, key)) }

  lemma JoinPair(v: string, w: string)
    ensures Join([v]) == v && Join([v, w]) == v + MAGIC + w
  {
    assert [v, w][1..] == [w];
  }

  /** LSOPValidator.gen_model: keys deleted in the prefix stay, as null. Past the end, no operation is interrupted. */
  method LsModel(ops: seq<MOp>, idx: nat) returns (model: map<string, string>)
    ensures idx < |ops| ==>
              forall key :: key in model <==> Inserted(ops[..idx], key) || (!ops[idx].Get? && ops[idx].key == key)
    ensures idx < |ops| ==> forall key :: key in model ==> model[key] == LsOracle(ops[..idx], ops[idx], key)
    ensures idx >= |ops| ==> forall key :: key in model <==> Inserted(ops, key)
    ensures idx >= |ops| ==> forall key :: key in model ==> model[key] == ValueAfter(ops, key)
  {
    model := LsPrefix(if idx < |ops| then ops[..idx] else ops);
    if idx < |ops| {
      model := LsInterrupted(model, ops[..idx], ops[idx]);
    }
  }

  /** The operations before the interrupted one. */
  method LsPrefix(ops: seq<MOp>) returns (model: map<string, string>)
    ensures forall key :: key in model <==> Inserted(ops, key)
    ensures forall key :: key in model ==> model[key] == ValueAfter(ops, key)
  {
    model := map[];
    assert ops[..0] == [];
    for i := 0 to |ops|
      invariant forall key :: key in model <==> Inserted(ops[..i], key)
      invariant forall key :: key in model ==> model[key] == ValueAfter(ops[..i], key)
    {
      assert ops[..i + 1] == ops[..i] + [ops[i]] && ops[..i + 1][..i] == ops[..i];
      match ops[i]
      case Insert(k, v) => model := model[k := v];
      case Delete(k) =>
        if k in model {
          model := model[k := NULL];
        }
      case Get(_) =>
    }
    assert ops[..|ops|] == ops;
  }

  /** The interrupted operation. */
  method LsInterrupted(before: map<string, string>, ghost ops: seq<MOp>, op: MOp) returns (model: map<string, string>)
    requires forall key :: key in before <==> Inserted(ops, key)
    requires forall key :: key in before ==> before[key] == ValueAfter(ops, key)
    ensures forall key :: key in model <==> Inserted(ops, key) || (!op.Get? && op.key == key)
    ensures forall key :: key in model ==> model[key] == LsOracle(ops, op, key)
  {
    model := before;
    match op
    case Insert(k, v) =>
      JoinPair(v, ValueAfter(ops, k));
      if k !in model {
        NeverInserted(ops, k);
        model := model[k := v + MAGIC + NULL];
      } else {
        model := model[k := v + MAGIC + model[k]];
      }
    case Delete(k) =>
      JoinPair(NULL, ValueAfter(ops, k));
      if k !in model {
        model := model[k := NULL];
      } else {
        model := model[k := NULL + MAGIC + model[k]];
      }
    case Get(_) =>
  }

  /** What an interrupted operation may leave under a key: the value just before or just after it. */
  predicate LsAllows(before: seq<MOp>, op: MOp, key: string, v: string) {
    v == ValueAfter(before, key) || v == ValueAfter(before + [op], key)
  }

  /** The alternatives are the permitted values. */
  lemma LsAlternativesExact(before: seq<MOp>, op: MOp, key: string, v: string)
    ensures v in LsAlternatives(before, op, key) <==> LsAllows(before, op, key, v)
  {
    ValueStep(before, op, key);
    if op.Delete? && op.key == key && !Inserted(before, key) {
      NeverInserted(before, key);
    }
  }

  lemma LsPlain(before: seq<MOp>, op: MOp, key: string)
    requires PlainOps(before + [op])
    ensures Separable(LsAlternatives(before, op, key))
  {
    assert PlainOps(before) by { assert forall i :: 0 <= i < |before| ==> before[i] == (before + [op])[i]; }
    assert op.Insert? ==> Plain(op.value) by { assert (before + [op])[|before|] == op; }
    PlainValue(before, key);
    NullIsPlain();
    PlainPair(ValueAfter(before, key), NULL);
    PlainPair(if op.Insert? then op.value else NULL, ValueAfter(before, key));
  }

  /** The oracle line of the key is empty, and the validator skips it. */
  predicate LsSkipped(before: seq<MOp>, op: MOp, key: string) {
    (op.Get? || op.key != key) && ValueAfter(before, key) == ""
  }

  /** The check of a key is lost exactly when its value is the empty string and the interrupted operation leaves it
      alone. */
  lemma LsOracleSkipped(before: seq<MOp>, op: MOp, key: string)
    ensures LsOracle(before, op, key) == "" <==> LsSkipped(before, op, key)
  {
    JoinEmptyIff(LsAlternatives(before, op, key));
  }

  /** A line for the key accepts exactly the permitted values, unless it is skipped. */
  lemma LsOracleExact(before: seq<MOp>, op: MOp, key: string, outputs: seq<string>, oracles: seq<string>, i: nat)
    requires Separable(LsAlternatives(before, op, key))
    requires i < |outputs| && i < |oracles| && oracles[i] == LsOracle(before, op, key)
    ensures AcceptedAt(outputs, oracles, i) <==>
            LsSkipped(before, op, key) || LsAllows(before, op, key, outputs[i])
  {
    var vs := LsAlternatives(before, op, key);
    AcceptedAlternatives(outputs, oracles, i, vs);
    LsAlternativesExact(before, op, key, outputs[i]);
    LsOracleSkipped(before, op, key);
    JoinEmptyIff(vs);
  }

  /** Whatever the values are: the line of a key lets the values after and before the interrupted operation through, if
      `p` and `q` were printed before them, if and only if the alternatives are readable. */
  lemma LsLineReadable(before: seq<MOp>, op: MOp, key: string, p: Option<string>, q: Option<string>)
    ensures var oracle := LsOracle(before, op, key);
            && Lets(ValueAfter(before + [op], key), oracle, p) && Lets(ValueAfter(before, key), oracle, q)
            <==> LineReadable(LsAlternatives(before, op, key), p, q)
  {
    ValueStep(before, op, key);
    if op.Delete? && op.key == key && !Inserted(before, key) {
      NeverInserted(before, key);
    }
    LineReadableIff(LsAlternatives(before, op, key), p, q);
  }

  /** The input that shows a false alarm: a value with the separator inside, read back unchanged, is reported. */
  lemma SeparatorInValueIsReported(prev: Option<string>)
    ensures var before, op := [Insert("k", "a!!!b")], Get("k");
            && LsAllows(before, op, "k", "a!!!b")
            && !Matches("a!!!b", LsOracle(before, op, "k"), prev)
  {
    SeparatorNotRecognised(prev);
    assert ValueAfter([Insert("k", "a!!!b")], "k") == "a!!!b";
  }

  /** The input that shows a lost check: an empty value, and a get of it interrupted. */
  lemma LsEmptyValueIsMissed(output: string)
    ensures var before, op := [Insert("k", "")], Get("k");
            && AcceptedAt([output], [LsOracle(before, op, "k")], 0)
            && ValueAfter(before, "k") == ValueAfter(before + [op], "k") == ""
  {
    var before, op := [Insert("k", "")], Get("k");
    ValueStep(before, op, "k");
    LsOracleSkipped(before, op, "k");
  }

  // ---- An interrupted operation racing with a completed one ----

  /** The last insert or delete of `key` is an insert. */
  predicate Present(ops: seq<MOp>, key: string) {
    ops != [] &&
    var op := ops[|ops| - 1];
    (op.Insert? && op.key == key) || (!(op.Delete? && op.key == key) && Present(ops[..|ops| - 1], key))
  }

  lemma {:induction false} AbsentIsNull(ops: seq<MOp>, key: string)
    requires !Present(ops, key)
    ensures ValueAfter(ops, key) == NULL
  {
    if ops != [] && !(ops[|ops| - 1].Delete? && ops[|ops| - 1].key == key) {
      AbsentIsNull(ops[..|ops| - 1], key);
    }
  }

  lemma AbsentOr(ops: seq<MOp>, key: string)
    ensures Present(ops, key) || ValueAfter(ops, key) == NULL
  {
    if !Present(ops, key) {
      AbsentIsNull(ops, key);
    }
  }

  /** PrefixOPFile.gen_model: here deleted keys go away. */
  method PrefixModel(ops: seq<MOp>) returns (model: map<string, string>)
    ensures forall key :: key in model <==> Present(ops, key)
    ensures forall key :: key in model ==> model[key] == ValueAfter(ops, key)
  {
    model := map[];
    assert ops[..0] == [];
    for i := 0 to |ops|
      invariant forall key :: key in model <==> Present(ops[..i], key)
      invariant forall key :: key in model ==> model[key] == ValueAfter(ops[..i], key)
    {
      assert ops[..i + 1] == ops[..i] + [ops[i]] && ops[..i + 1][..i] == ops[..i];
      match ops[i]
      case Insert(k, v) => model := model[k := v];
      case Delete(k) =>
        if k in model {
          model := model - {k};
        }
      case Get(_) =>
    }
    assert ops[..|ops|] == ops;
  }

  /** What a get of a key may return when only the first operation counts. */
  function FirstAlternatives(prefix: seq<MOp>, op0: MOp, firstDone: bool, key: string): seq<string> {
    if op0.Get? || op0.key != key then [ValueAfter(prefix, key)]
    else if firstDone || (op0.Delete? && !Present(prefix, key)) then [ValueAfter([op0], key)]
    else [ValueAfter([op0], key), ValueAfter(prefix, key)]
  }

  /** What a get of `key` may return; `seen` is what a racing get printed. */
  function RaceAlternatives(prefix: seq<MOp>, op0: MOp, op1: MOp, firstDone: bool, seen: string, key: string)
    : seq<string>
  {
    if op1.key == key then [match op1 case Insert(_, v) => v case Delete(_) => NULL case Get(_) => seen]
    else FirstAlternatives(prefix, op0, firstDone, key)
  }

  function RaceOracle(prefix: seq<MOp>, op0: MOp, op1: MOp, firstDone: bool, seen: string, key: string): string {
    Join(RaceAlternatives(prefix, op0, op1, firstDone, seen, key))
  }

  /** RaceOPFile.gen_model, first operation */
  method RaceFirst(prefix: seq<MOp>, op0: MOp, firstDone: bool) returns (model: map<string, string>)
    ensures forall key :: key in model <==> Present(prefix, key) || (!op0.Get? && op0.key == key)
    ensures forall key :: key in model ==> model[key] == Join(FirstAlternatives(prefix, op0, firstDone, key))
  {
    model := PrefixModel(prefix);
    match op0 {
      case Insert(k, v) =>
        JoinPair(v, ValueAfter(prefix, k));
        assert ValueAfter([op0], k) == v;
        if firstDone {
          model := model[k := v];
        } else if k !in model {
          AbsentIsNull(prefix, k);
          model := model[k := v + MAGIC + NULL];
        } else {
          model := model[k := v + MAGIC + model[k]];
        }
      case Delete(k) =>
        JoinPair(NULL, ValueAfter(prefix, k));
        assert ValueAfter([op0], k) == NULL;
        if firstDone || k !in model {
          model := model[k := NULL];
        } else {
          model := model[k := NULL + MAGIC + model[k]];
        }
      case Get(_) =>
    }
  }

  /** RaceOPFile.gen_model */
  method RaceModel(prefix: seq<MOp>, op0: MOp, op1: MOp, firstDone: bool, seen: string)
    returns (model: map<string, string>)
    ensures forall key :: key in model <==> Present(prefix, key) || (!op0.Get? && op0.key == key) || op1.key == key
    ensures forall key :: key in model ==> model[key] == RaceOracle(prefix, op0, op1, firstDone, seen, key)
  {
    model := RaceFirst(prefix, op0, firstDone);
    match op1 {
      case Insert(k, v) => model := model[k := v];
      case Delete(k) => model := model[k := NULL];
      case Get(k) => model := model[k := seen];
    }
  }

  lemma PlainRace(prefix: seq<MOp>, op0: MOp, op1: MOp, key: string)
    requires PlainOps(prefix + [op0, op1])
    ensures Plain(ValueAfter(prefix, key)) && Plain(ValueAfter([op0], key)) && (op1.Insert? ==> Plain(op1.value))
  {
    assert PlainOps(prefix) by { assert forall i :: 0 <= i < |prefix| ==> prefix[i] == (prefix + [op0, op1])[i]; }
    assert PlainOps([op0]) by { assert (prefix + [op0, op1])[|prefix|] == op0; }
    assert op1.Insert? ==> Plain(op1.value) by { assert (prefix + [op0, op1])[|prefix| + 1] == op1; }
    PlainValue(prefix, key);
    PlainValue([op0], key);
  }

  /** What the two operations leave under a key, from what was there. */
  lemma RaceValues(prefix: seq<MOp>, op0: MOp, op1: MOp, key: string)
    ensures var one := if op0.Get? || op0.key != key then ValueAfter(prefix, key) else ValueAfter([op0], key);
            && ValueAfter(prefix + [op0] + [op1], key)
                 == (if op1.Get? || op1.key != key then one else ValueAfter([op1], key))
            && ValueAfter(prefix + [op1], key)
                 == (if op1.Get? || op1.key != key then ValueAfter(prefix, key) else ValueAfter([op1], key))
  {
    ValueStep(prefix, op0, key);
    ValueStep([], op0, key);
    ValueStep(prefix + [op0], op1, key);
    ValueStep([], op1, key);
    ValueStep(prefix, op1, key);
    assert [] + [op0] == [op0] && [] + [op1] == [op1];
  }

  /** What a race may leave under a key: the final value with the first operation taken or, unless it was done,
      dropped; a key read by the racing get has the value that was read. */
  predicate RaceAllows(prefix: seq<MOp>, op0: MOp, op1: MOp, firstDone: bool, seen: string, key: string, v: string) {
    if op1 == Get(key) then v == seen
    else v == ValueAfter(prefix + [op0] + [op1], key) || (!firstDone && v == ValueAfter(prefix + [op1], key))
  }

  /** The alternatives are the permitted values. */
  lemma RaceAlternativesExact(prefix: seq<MOp>, op0: MOp, op1: MOp, firstDone: bool, seen: string, key: string,
                              v: string)
    ensures v in RaceAlternatives(prefix, op0, op1, firstDone, seen, key) <==>
            RaceAllows(prefix, op0, op1, firstDone, seen, key, v)
  {
    RaceValues(prefix, op0, op1, key);
    AbsentOr(prefix, key);
  }

  lemma RacePlain(prefix: seq<MOp>, op0: MOp, op1: MOp, firstDone: bool, seen: string, key: string)
    requires PlainOps(prefix + [op0, op1]) && Plain(seen)
    ensures Separable(RaceAlternatives(prefix, op0, op1, firstDone, seen, key))
  {
    PlainRace(prefix, op0, op1, key);
    if op1.key == key {
      NullIsPlain();
      PlainPair(match op1 case Insert(_, v) => v case Delete(_) => NULL case Get(_) => seen, seen);
    } else {
      PlainPair(ValueAfter(prefix, key), seen);
      PlainPair(ValueAfter([op0], key), ValueAfter(prefix, key));
    }
  }

  /** The oracle line of the key is empty, and the validator skips it. */
  predicate RaceSkipped(prefix: seq<MOp>, op0: MOp, op1: MOp, firstDone: bool, seen: string, key: string) {
    if op1.key == key then (op1.Insert? && op1.value == "") || (op1.Get? && seen == "")
    else if op0.Get? || op0.key != key then ValueAfter(prefix, key) == ""
    else firstDone && op0.Insert? && op0.value == ""
  }

  /** The check of a key is lost exactly when its one permitted value is the empty string: the one the second
      operation inserts or read, or the one that neither touches, or the one a completed first operation inserts. */
  lemma RaceOracleSkipped(prefix: seq<MOp>, op0: MOp, op1: MOp, firstDone: bool, seen: string, key: string)
    ensures RaceOracle(prefix, op0, op1, firstDone, seen, key) == "" <==>
            RaceSkipped(prefix, op0, op1, firstDone, seen, key)
  {
    JoinEmptyIff(RaceAlternatives(prefix, op0, op1, firstDone, seen, key));
    ValueStep([], op0, key);
    assert [] + [op0] == [op0];
  }

  /** A line for the key accepts exactly those values, unless it is skipped. */
  lemma RaceOracleExact(prefix: seq<MOp>, op0: MOp, op1: MOp, firstDone: bool, seen: string, key: string,
                        outputs: seq<string>, oracles: seq<string>, i: nat)
    requires Separable(RaceAlternatives(prefix, op0, op1, firstDone, seen, key)) && i < |outputs| && i < |oracles|
    requires oracles[i] == RaceOracle(prefix, op0, op1, firstDone, seen, key)
    ensures AcceptedAt(outputs, oracles, i) <==>
            || RaceSkipped(prefix, op0, op1, firstDone, seen, key)
            || RaceAllows(prefix, op0, op1, firstDone, seen, key, outputs[i])
  {
    var vs := RaceAlternatives(prefix, op0, op1, firstDone, seen, key);
    AcceptedAlternatives(outputs, oracles, i, vs);
    RaceAlternativesExact(prefix, op0, op1, firstDone, seen, key, outputs[i]);
    RaceOracleSkipped(prefix, op0, op1, firstDone, seen, key);
    JoinEmptyIff(vs);
  }

  /** The values of a key with the first operation taken and, unless it was done, dropped; a get read them both. */
  predicate RaceLeaves(prefix: seq<MOp>, op0: MOp, op1: MOp, firstDone: bool, seen: string, key: string, v: string,
                       w: string)
  {
    if op1 == Get(key) then v == w == seen
    else v == ValueAfter(prefix + [op0] + [op1], key) && w == if firstDone then v else ValueAfter(prefix + [op1], key)
  }

  /** Whatever the values are: the line of a key lets both through if and only if the alternatives are readable. */
  lemma RaceLineReadable(prefix: seq<MOp>, op0: MOp, op1: MOp, firstDone: bool, seen: string, key: string, v: string,
                         w: string, p: Option<string>, q: Option<string>)
    requires RaceLeaves(prefix, op0, op1, firstDone, seen, key, v, w)
    ensures var oracle := RaceOracle(prefix, op0, op1, firstDone, seen, key);
            Lets(v, oracle, p) && Lets(w, oracle, q)
            <==> LineReadable(RaceAlternatives(prefix, op0, op1, firstDone, seen, key), p, q)
  {
    RaceValues(prefix, op0, op1, key);
    AbsentOr(prefix, key);
    LineReadableIff(RaceAlternatives(prefix, op0, op1, firstDone, seen, key), p, q);
  }

  /** The input that shows a lost check: a racing get that read the empty string. */
  lemma RaceEmptyValueIsMissed(output: string)
    ensures var prefix, op0, op1 := [Insert("k", "")], Get("k"), Get("k");
            && AcceptedAt([output], [RaceOracle(prefix, op0, op1, false, "", "k")], 0)
            && ValueAfter(prefix + [op0] + [op1], "k") == ValueAfter(prefix + [op1], "k") == ""
  {
    var prefix, op0, op1 := [Insert("k", "")], Get("k"), Get("k");
    RaceValues(prefix, op0, op1, "k");
    RaceOracleSkipped(prefix, op0, op1, false, "", "k");
  }
}
