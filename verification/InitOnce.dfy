/**
 * get_lock: any number of threads race to initialise a lock exactly once per run of the pool. The word `runid`
 * is the pool's run id when the lock is ready and that minus one while some thread initialises it.
 */
module InitOnce {

  /** Where a thread is between two atomic steps. */
  datatype PC =
    | Top                // about to read runid
    | Claim(tmp: nat)    // about to compare-and-swap runid from tmp to pop - 1
    | InInit             // inside init_lock
    | Publish            // init_lock succeeded; about to compare-and-swap runid from pop - 1 to pop
    | Reset              // init_lock failed; about to clear runid
    | GotLock            // returned the lock
    | GotNull            // returned nullptr

  /** `inits` and `fails` count the calls of init_lock that succeeded and failed. */
  datatype State = State(runid: nat, pcs: seq<PC>, inits: nat, fails: nat)

  predicate Owns(pc: PC) { pc.InInit? || pc.Publish? || pc.Reset? }

  /** One atomic step of thread `t`; `ok` is what init_lock returns. */
  function Step(pop: nat, s: State, t: nat, ok: bool): State
    requires t < |s.pcs| && pop > 0
  {
    match s.pcs[t]
    case Top =>
      if s.runid == pop then Goto(s, t, GotLock)
      else if s.runid != pop - 1 then Goto(s, t, Claim(s.runid))
      else s
    case Claim(tmp) =>
      if s.runid == tmp then Goto(s, t, InInit).(runid := pop - 1) else Goto(s, t, Top)
    case InInit => if ok then Goto(s, t, Publish).(inits := s.inits + 1) else Goto(s, t, Reset).(fails := s.fails + 1)
    case Publish =>
      if s.runid == pop - 1 then Goto(s, t, Top).(runid := pop) else Goto(s, t, GotNull)
    case Reset => Goto(s, t, GotNull).(runid := 0)
    case _ => s
  }

  function Goto(s: State, t: nat, pc: PC): State
    requires t < |s.pcs|
  {
    s.(pcs := s.pcs[t := pc])
  }

  /** A schedule says which thread moves and how its init_lock would turn out. */
  datatype Move = Move(thread: nat, ok: bool)

  function Run(pop: nat, s: State, moves: seq<Move>): State
    requires pop > 0
  {
    if moves == [] then s
    else
      var front, m := Run(pop, s, moves[..|moves| - 1]), moves[|moves| - 1];
      if m.thread < |front.pcs| then Step(pop, front, m.thread, m.ok) else front
  }

  predicate Initial(s: State) { s.inits == 0 && s.fails == 0 && forall t :: 0 <= t < |s.pcs| ==> s.pcs[t].Top? }

  // ---- The invariant ----

  ghost predicate Inv(pop: nat, runid0: nat, s: State)
    requires pop >= 2
  {
    && (forall t :: 0 <= t < |s.pcs| ==> !s.pcs[t].Claim? || (s.pcs[t].tmp != pop && s.pcs[t].tmp != pop - 1))
    // the claimed word and its single owner
    && (forall t :: 0 <= t < |s.pcs| && Owns(s.pcs[t]) ==> s.runid == pop - 1)
    && (s.runid == pop - 1 ==> exists t :: 0 <= t < |s.pcs| && Owns(s.pcs[t]))
    && (forall t, u :: 0 <= t < u < |s.pcs| ==> !(Owns(s.pcs[t]) && Owns(s.pcs[u])))
    // an init succeeds once, and is published or about to be
    && (forall t :: 0 <= t < |s.pcs| && s.pcs[t].GotLock? ==> s.runid == pop)
    && (s.runid == pop ==> s.inits == if runid0 == pop then 0 else 1)
    && (forall t :: 0 <= t < |s.pcs| && s.pcs[t].Publish? ==> s.inits == 1)
    && (s.runid != pop && (forall t :: 0 <= t < |s.pcs| ==> !s.pcs[t].Publish?) ==> s.inits == 0)
    && (runid0 == pop ==> s.runid == pop)
    && (forall t :: 0 <= t < |s.pcs| && (s.pcs[t].Reset? || s.pcs[t].GotNull?) ==> s.fails > 0)
  }

  lemma InvClaim(pop: nat, runid0: nat, s: State, t: nat, ok: bool)
    requires pop >= 2 && t < |s.pcs| && Inv(pop, runid0, s) && s.pcs[t].Claim?
    ensures Inv(pop, runid0, Step(pop, s, t, ok))
  {
    var s' := Step(pop, s, t, ok);
    if s.runid == s.pcs[t].tmp {
      assert Owns(s'.pcs[t]);
    } else if s.runid == pop - 1 {
      var u :| 0 <= u < |s.pcs| && Owns(s.pcs[u]);
      assert Owns(s'.pcs[u]);
    }
  }

  lemma InvOwner(pop: nat, runid0: nat, s: State, t: nat, ok: bool)
    requires pop >= 2 && t < |s.pcs| && Inv(pop, runid0, s) && Owns(s.pcs[t])
    ensures Inv(pop, runid0, Step(pop, s, t, ok))
  {
    if s.pcs[t].InInit? {
      assert Owns(Step(pop, s, t, ok).pcs[t]);
    }
  }

  lemma InvStep(pop: nat, runid0: nat, s: State, t: nat, ok: bool)
    requires pop >= 2 && t < |s.pcs| && Inv(pop, runid0, s)
    ensures Inv(pop, runid0, Step(pop, s, t, ok))
  {
    if s.pcs[t].Claim? {
      InvClaim(pop, runid0, s, t, ok);
    } else if Owns(s.pcs[t]) {
      InvOwner(pop, runid0, s, t, ok);
    }
  }

  lemma {:induction false} InvRun(pop: nat, s: State, moves: seq<Move>)
    requires pop >= 2 && Initial(s) && s.runid != pop - 1
    ensures Inv(pop, s.runid, Run(pop, s, moves))
  {
    if moves != [] {
      var front, m := moves[..|moves| - 1], moves[|moves| - 1];
      InvRun(pop, s, front);
      if m.thread < |Run(pop, s, front).pcs| {
        InvStep(pop, s.runid, Run(pop, s, front), m.thread, m.ok);
      }
    }
  }

  // ---- What every run guarantees ----

  /** Move `n` ends a call of init_lock with this answer. */
  ghost predicate EndsInit(pop: nat, s: State, moves: seq<Move>, n: nat, ok: bool)
    requires pop > 0
  {
    && n < |moves| && moves[n].ok == ok
    && var e := Run(pop, s, moves[..n]); moves[n].thread < |e.pcs| && e.pcs[moves[n].thread].InInit?
  }

  lemma EndsInitFront(pop: nat, s: State, moves: seq<Move>, n: nat, ok: bool)
    requires pop > 0 && n < |moves| - 1
    ensures EndsInit(pop, s, moves, n, ok) <==> EndsInit(pop, s, moves[..|moves| - 1], n, ok)
  {
    assert moves[..|moves| - 1][..n] == moves[..n];
  }

  ghost predicate SomeEnd(pop: nat, s: State, moves: seq<Move>, ok: bool)
    requires pop > 0
  {
    exists n :: 0 <= n < |moves| && EndsInit(pop, s, moves, n, ok)
  }

  lemma SomeEndNext(pop: nat, s: State, moves: seq<Move>, ok: bool)
    requires pop > 0 && moves != []
    ensures var last := |moves| - 1;
            SomeEnd(pop, s, moves, ok) <==> SomeEnd(pop, s, moves[..last], ok) || EndsInit(pop, s, moves, last, ok)
  {
    var last := |moves| - 1;
    forall n | 0 <= n < last ensures EndsInit(pop, s, moves, n, ok) <==> EndsInit(pop, s, moves[..last], n, ok) {
      EndsInitFront(pop, s, moves, n, ok);
    }
  }

  /** The counter of a kind stands at zero if and only if no call has ended that way. */
  lemma {:induction false} CountersMean(pop: nat, s: State, moves: seq<Move>)
    requires pop > 0 && Initial(s)
    ensures Run(pop, s, moves).inits > 0 <==> SomeEnd(pop, s, moves, true)
    ensures Run(pop, s, moves).fails > 0 <==> SomeEnd(pop, s, moves, false)
  {
    if moves != [] {
      CountersMean(pop, s, moves[..|moves| - 1]);
      SomeEndNext(pop, s, moves, true);
      SomeEndNext(pop, s, moves, false);
    }
  }

  /** At most one thread is ever inside init_lock. */
  lemma OneInside(pop: nat, s: State, moves: seq<Move>)
    requires pop >= 2 && Initial(s) && s.runid != pop - 1
    ensures var e := Run(pop, s, moves);
            && (forall t, u :: 0 <= t < u < |e.pcs| ==> !(e.pcs[t].InInit? && e.pcs[u].InInit?))
            && e.inits <= 1 && (s.runid == pop ==> e.inits == 0)
  {
    InvRun(pop, s, moves);
  }

  /** At most one call of it ever succeeds, and none if the run id was current. */
  lemma AtMostOneInit(pop: nat, s: State, moves: seq<Move>, m: nat, n: nat)
    requires pop >= 2 && Initial(s) && s.runid != pop - 1
    requires EndsInit(pop, s, moves, m, true) && EndsInit(pop, s, moves, n, true)
    ensures m == n && s.runid != pop
  {
    InvRun(pop, s, moves[..m]);
    InvRun(pop, s, moves[..n]);
    if m < n {
      NoSecondInit(pop, s, moves, m, n);
    } else if n < m {
      NoSecondInit(pop, s, moves, n, m);
    }
  }

  lemma NoSecondInit(pop: nat, s: State, moves: seq<Move>, m: nat, n: nat)
    requires pop >= 2 && Initial(s) && s.runid != pop - 1 && m < n < |moves|
    requires EndsInit(pop, s, moves, m, true)
    ensures !EndsInit(pop, s, moves, n, true)
  {
    assert moves[..n][..m] == moves[..m];
    assert EndsInit(pop, s, moves[..n], m, true);
    CountersMean(pop, s, moves[..n]);
    InvRun(pop, s, moves[..n]);
  }

  /** The publishing compare-and-swap never fails. */
  lemma PublishSucceeds(pop: nat, s: State, moves: seq<Move>, t: nat, ok: bool)
    requires pop >= 2 && Initial(s) && s.runid != pop - 1
    requires t < |Run(pop, s, moves).pcs| && Run(pop, s, moves).pcs[t].Publish?
    ensures Step(pop, Run(pop, s, moves), t, ok).runid == pop
  {
    InvRun(pop, s, moves);
  }

  /** Whoever gets the lock gets an initialised one: the run id was already current, or a call of init_lock has
      succeeded. */
  lemma LockIsInitialised(pop: nat, s: State, moves: seq<Move>, t: nat)
    requires pop >= 2 && Initial(s) && s.runid != pop - 1
    requires t < |Run(pop, s, moves).pcs| && Run(pop, s, moves).pcs[t].GotLock?
    ensures s.runid == pop || SomeEnd(pop, s, moves, true)
  {
    InvRun(pop, s, moves);
    CountersMean(pop, s, moves);
  }

  predicate Nulled(pc: PC) { pc.GotNull? || pc.Reset? }

  /** Only a failed call of its own sends a thread to the null return. */
  lemma NullStep(pop: nat, runid0: nat, s: State, u: nat, ok: bool, t: nat)
    requires pop >= 2 && u < |s.pcs| && t < |s.pcs| && Inv(pop, runid0, s)
    requires !Nulled(s.pcs[t]) && Nulled(Step(pop, s, u, ok).pcs[t])
    ensures u == t && s.pcs[t].InInit? && !ok
  {
  }

  /** A null return means that this thread's own call of init_lock has failed. */
  lemma {:induction false} NullMeansFailedInit(pop: nat, s: State, moves: seq<Move>, t: nat) returns (n: nat)
    requires pop >= 2 && Initial(s) && s.runid != pop - 1
    requires t < |Run(pop, s, moves).pcs| && Nulled(Run(pop, s, moves).pcs[t])
    ensures n < |moves| && EndsInit(pop, s, moves, n, false) && moves[n].thread == t
  {
    var front, last := moves[..|moves| - 1], |moves| - 1;
    var e, m := Run(pop, s, front), moves[last];
    if Nulled(e.pcs[t]) {
      n := NullMeansFailedInit(pop, s, front, t);
      EndsInitFront(pop, s, moves, n, false);
    } else {
      InvRun(pop, s, front);
      NullStep(pop, s.runid, e, m.thread, m.ok, t);
      n := last;
    }
  }

  /** A thread whose call of init_lock fails returns null. */
  lemma {:induction false} FailedInitGivesNull(pop: nat, s: State, moves: seq<Move>, n: nat)
    requires pop >= 2 && Initial(s) && s.runid != pop - 1 && EndsInit(pop, s, moves, n, false)
    ensures var e, t := Run(pop, s, moves), moves[n].thread;
            t < |e.pcs| && Nulled(e.pcs[t])
  {
    var front := moves[..|moves| - 1];
    if n < |front| {
      EndsInitFront(pop, s, moves, n, false);
      FailedInitGivesNull(pop, s, front, n);
    }
  }

  /** When every call of init_lock would succeed, no thread returns null. */
  lemma NoNullWhenOk(pop: nat, s: State, moves: seq<Move>, t: nat)
    requires pop >= 2 && Initial(s) && s.runid != pop - 1 && AllOk(moves)
    requires t < |Run(pop, s, moves).pcs|
    ensures !Run(pop, s, moves).pcs[t].GotNull?
  {
    if Run(pop, s, moves).pcs[t].GotNull? {
      var n := NullMeansFailedInit(pop, s, moves, t);
    }
  }

  ghost predicate AllOk(moves: seq<Move>) { forall n :: 0 <= n < |moves| ==> moves[n].ok }

  /** Once ready, ready for good. */
  lemma {:induction false} ReadyStays(pop: nat, s: State, moves: seq<Move>, n: nat)
    requires pop >= 2 && Initial(s) && s.runid != pop - 1 && n <= |moves|
    requires Run(pop, s, moves[..n]).runid == pop
    ensures Run(pop, s, moves).runid == pop
    decreases |moves|
  {
    if n == |moves| {
      assert moves[..n] == moves;
    } else {
      var front := moves[..|moves| - 1];
      assert front[..n] == moves[..n];
      ReadyStays(pop, s, front, n);
      InvRun(pop, s, front);
    }
  }

  // ---- Every run ends ----

  predicate Returned(pc: PC) { pc.GotLock? || pc.GotNull? }

  predicate AllReturned(s: State) { forall t :: 0 <= t < |s.pcs| ==> Returned(s.pcs[t]) }

  function Live(pcs: seq<PC>): nat {
    if pcs == [] then 0 else Live(pcs[..|pcs| - 1]) + if Returned(pcs[|pcs| - 1]) then 0 else 1
  }

  /** What a thread can still do without changing the run id. */
  function Weight(runid: nat, pc: PC): nat {
    match pc
    case Top => 2
    case Claim(tmp) => if tmp == runid then 1 else 3
    case InInit => 2
    case Publish => 1
    case Reset => 1
    case _ => 0
  }

  function Weights(runid: nat, pcs: seq<PC>): nat {
    if pcs == [] then 0 else Weights(runid, pcs[..|pcs| - 1]) + Weight(runid, pcs[|pcs| - 1])
  }

  /** How often the run id can still change: a thread may claim it and give it back, until it is current. */
  function Claims(pop: nat, s: State): int {
    if s.runid == pop then 0 else 2 * Live(s.pcs) - if s.runid == pop - 1 then 1 else 0
  }

  function Rank(pop: nat, s: State): int { Claims(pop, s) * (3 * |s.pcs| + 1) + Weights(s.runid, s.pcs) }

  lemma {:induction false} SumsUpdate(runid: nat, pcs: seq<PC>, t: nat, pc: PC)
    requires t < |pcs|
    ensures Weights(runid, pcs[t := pc]) == Weights(runid, pcs) - Weight(runid, pcs[t]) + Weight(runid, pc)
    ensures Live(pcs[t := pc]) == Live(pcs) - (if Returned(pcs[t]) then 0 else 1) + (if Returned(pc) then 0 else 1)
  {
    var n := |pcs| - 1;
    if t == n {
      assert pcs[t := pc][..n] == pcs[..n];
    } else {
      assert pcs[t := pc][..n] == pcs[..n][t := pc];
      SumsUpdate(runid, pcs[..n], t, pc);
    }
  }

  lemma {:induction false} WeightsBound(runid: nat, pcs: seq<PC>)
    ensures 0 <= Weights(runid, pcs) <= 3 * |pcs| && 0 <= Live(pcs) <= |pcs|
  {
    if pcs != [] {
      WeightsBound(runid, pcs[..|pcs| - 1]);
    }
  }

  lemma {:induction false} OwnerIsLive(pcs: seq<PC>, t: nat)
    requires t < |pcs| && !Returned(pcs[t])
    ensures Live(pcs) > 0
  {
    if t < |pcs| - 1 {
      OwnerIsLive(pcs[..|pcs| - 1], t);
    }
  }

  lemma ProductNonNegative(a: int, k: int)
    requires a >= 0 && k >= 0
    ensures a * k >= 0
  {
  }

  lemma Lexicographic(a: int, b: int, k: int, x: int, y: int)
    requires a < b && 0 <= x < k && 0 <= y
    ensures a * k + x < b * k + y
  {
    ProductNonNegative(b - a - 1, k);
    assert b * k == a * k + k + (b - a - 1) * k;
  }

  /** A step that changes something changes the run id for the better, or keeps it and lowers the weights. */
  lemma StepLowers(pop: nat, runid0: nat, s: State, t: nat, ok: bool)
    requires pop >= 2 && t < |s.pcs| && Inv(pop, runid0, s) && Step(pop, s, t, ok) != s
    ensures var s' := Step(pop, s, t, ok);
            || Claims(pop, s') < Claims(pop, s)
            || (Claims(pop, s') == Claims(pop, s) && s'.runid == s.runid
                && Weights(s'.runid, s'.pcs) < Weights(s.runid, s.pcs))
  {
    var s' := Step(pop, s, t, ok);
    OwnerIsLive(s.pcs, t);
    SumsUpdate(s.runid, s.pcs, t, s'.pcs[t]);
  }

  lemma StepLowersRank(pop: nat, runid0: nat, s: State, t: nat, ok: bool)
    requires pop >= 2 && t < |s.pcs| && Inv(pop, runid0, s) && Step(pop, s, t, ok) != s
    ensures Rank(pop, Step(pop, s, t, ok)) < Rank(pop, s)
  {
    var s' := Step(pop, s, t, ok);
    StepLowers(pop, runid0, s, t, ok);
    WeightsBound(s.runid, s.pcs);
    WeightsBound(s'.runid, s'.pcs);
    if Claims(pop, s') < Claims(pop, s) {
      var w, w' := Weights(s.runid, s.pcs), Weights(s'.runid, s'.pcs);
      Lexicographic(Claims(pop, s'), Claims(pop, s), 3 * |s.pcs| + 1, w', w);
    }
  }

  lemma RankNonNegative(pop: nat, runid0: nat, s: State)
    requires pop >= 2 && Inv(pop, runid0, s)
    ensures Rank(pop, s) >= 0
  {
    WeightsBound(s.runid, s.pcs);
    if s.runid == pop - 1 {
      var t :| 0 <= t < |s.pcs| && Owns(s.pcs[t]);
      OwnerIsLive(s.pcs, t);
    }
    ProductNonNegative(Claims(pop, s), 3 * |s.pcs| + 1);
  }

  /** How many moves of a schedule change something; spinning does not. */
  function Changes(pop: nat, s: State, moves: seq<Move>): nat
    requires pop > 0
  {
    if moves == [] then 0
    else
      var front := moves[..|moves| - 1];
      Changes(pop, s, front) + if Run(pop, s, moves) != Run(pop, s, front) then 1 else 0
  }

  /** Whatever the schedule, whatever inits fail, only so many moves change anything. */
  lemma {:induction false} RunsAreBounded(pop: nat, s: State, moves: seq<Move>)
    requires pop >= 2 && Initial(s) && s.runid != pop - 1
    ensures Changes(pop, s, moves) + Rank(pop, Run(pop, s, moves)) <= Rank(pop, s)
    ensures Changes(pop, s, moves) <= Rank(pop, s)
  {
    InvRun(pop, s, moves);
    RankNonNegative(pop, s.runid, Run(pop, s, moves));
    if moves != [] {
      var front, m := moves[..|moves| - 1], moves[|moves| - 1];
      var e := Run(pop, s, front);
      RunsAreBounded(pop, s, front);
      InvRun(pop, s, front);
      if m.thread < |e.pcs| && Step(pop, e, m.thread, m.ok) != e {
        StepLowersRank(pop, s.runid, e, m.thread, m.ok);
      }
    }
  }

  /** A thread that has not returned can move, or waits for the owner of the claim, and that one can. */
  lemma MovesOrWaits(pop: nat, runid0: nat, s: State, t: nat) returns (u: nat)
    requires pop >= 2 && Inv(pop, runid0, s) && t < |s.pcs| && !Returned(s.pcs[t])
    ensures u < |s.pcs| && !Returned(s.pcs[u]) && forall ok :: Step(pop, s, u, ok) != s
    ensures u == t || (s.runid == pop - 1 && Owns(s.pcs[u]))
  {
    u := t;
    if s.pcs[t].Top? && s.runid == pop - 1 {
      u :| 0 <= u < |s.pcs| && Owns(s.pcs[u]);
    }
    forall ok ensures Step(pop, s, u, ok) != s {
      assert Step(pop, s, u, ok).pcs[u] != s.pcs[u];
    }
  }

  lemma LoweringMove(pop: nat, runid0: nat, e: State) returns (m: Move)
    requires pop >= 2 && Inv(pop, runid0, e) && !AllReturned(e)
    ensures m.ok && m.thread < |e.pcs| && Rank(pop, Step(pop, e, m.thread, m.ok)) < Rank(pop, e)
  {
    var t :| 0 <= t < |e.pcs| && !Returned(e.pcs[t]);
    var u := MovesOrWaits(pop, runid0, e, t);
    m := Move(u, true);
    StepLowersRank(pop, runid0, e, u, true);
  }

  lemma RunNext(pop: nat, s: State, moves: seq<Move>, m: Move)
    requires pop > 0 && m.thread < |Run(pop, s, moves).pcs|
    ensures Run(pop, s, moves + [m]) == Step(pop, Run(pop, s, moves), m.thread, m.ok)
  {
    assert (moves + [m])[..|moves|] == moves;
  }

  lemma OneMoreMove(pop: nat, s: State, moves: seq<Move>) returns (m: Move)
    requires pop >= 2 && Initial(s) && s.runid != pop - 1 && !AllReturned(Run(pop, s, moves))
    ensures m.ok && 0 <= Rank(pop, Run(pop, s, moves + [m])) < Rank(pop, Run(pop, s, moves))
  {
    InvRun(pop, s, moves);
    m := LoweringMove(pop, s.runid, Run(pop, s, moves));
    RunNext(pop, s, moves, m);
    InvRun(pop, s, moves + [m]);
    RankNonNegative(pop, s.runid, Run(pop, s, moves + [m]));
  }

  /** So from every reachable state the run goes on until all threads have returned; if no call of init_lock fails, with
      the lock. */
  lemma EveryRunCanFinish(pop: nat, s: State, moves: seq<Move>) returns (more: seq<Move>)
    requires pop >= 2 && Initial(s) && s.runid != pop - 1
    ensures AllReturned(Run(pop, s, moves + more)) && AllOk(more)
    ensures AllOk(moves) ==> AllGotLock(Run(pop, s, moves + more))
  {
    more := FinishRun(pop, s, moves);
    if AllOk(moves) {
      var e := Run(pop, s, moves + more);
      forall t | 0 <= t < |e.pcs| ensures e.pcs[t].GotLock? {
        NoNullWhenOk(pop, s, moves + more, t);
      }
    }
  }

  ghost predicate AllGotLock(s: State) { forall t :: 0 <= t < |s.pcs| ==> s.pcs[t].GotLock? }

  lemma FinishRun(pop: nat, s: State, moves: seq<Move>) returns (more: seq<Move>)
    requires pop >= 2 && Initial(s) && s.runid != pop - 1
    ensures AllReturned(Run(pop, s, moves + more)) && AllOk(more)
    decreases Rank(pop, Run(pop, s, moves))
  {
    more := [];
    if AllReturned(Run(pop, s, moves)) {
      assert moves + [] == moves;
    } else {
      var m := OneMoreMove(pop, s, moves);
      var rest := FinishRun(pop, s, moves + [m]);
      more := [m] + rest;
      Regroup(moves, m, rest);
    }
  }

  lemma Regroup(moves: seq<Move>, m: Move, rest: seq<Move>)
    ensures moves + [m] + rest == moves + ([m] + rest) && (m.ok && AllOk(rest) ==> AllOk([m] + rest))
  {
  }

  /** The excluded start: a word left at pop - 1 by an earlier crash makes every thread spin forever. */
  lemma {:induction false} StuckFromStaleClaim(pop: nat, s: State, moves: seq<Move>)
    requires pop >= 2 && Initial(s) && s.runid == pop - 1
    ensures Run(pop, s, moves) == s
  {
    if moves != [] {
      StuckFromStaleClaim(pop, s, moves[..|moves| - 1]);
    }
  }
}
