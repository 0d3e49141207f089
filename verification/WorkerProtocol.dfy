/**
 * The benchmark driver and its N workers: each worker has a state, a mutex and a condition variable, and moves
 * through init, run and exit by handshakes with the main thread. Any interleaving, spurious wakeups included.
 */
module WorkerProtocol {

  // WORKER_STATE_IDLE = 0, INIT = 1, INITIALIZED = 2, RUN = 3, END = 4, EXIT = 5, DONE = 6

  /** A worker thread. Round k is: wait while the state is 2k, call back (init, func, exit for k = 0, 1, 2), then
      move the state from 2k + 1 to 2k + 2 and signal. The callback runs with the mutex held. */
  datatype WorkerPC =
    | NotCreated
    | Locking             // about to take the mutex for the first time
    | Testing(k: nat)     // holds the mutex, about to test the state in the wait loop of round k
    | Asleep(k: nat)      // in cond_wait
    | Waking(k: nat)      // woken, about to take the mutex again
    | Working(k: nat)     // in the callback of round k
    | Unlocking           // about to release the mutex for the last time
    | Finished

  datatype Holder = Nobody | Main | Itself

  datatype Worker = Worker(state: nat, holder: Holder, pc: WorkerPC, failed: bool)

  datatype Phase = Init | Run | Join | Store | Exit | Done | Out

  datatype Sub = Create | Lock | Move | Test | Sleep | Wake | Unlock | JoinThread

  /** The main thread: in `phase` for worker `i`. */
  datatype MainPC = MainPC(phase: Phase, i: nat, sub: Sub)

  /** `broken` records a failed state assertion. */
  datatype World = World(main: MainPC, workers: seq<Worker>, broken: bool)

  // ---- Worker steps ----

  /** What one step does to the worker, whether it signals, and whether it breaks a state assertion. */
  datatype Effect = Effect(x: Worker, signals: bool, breaks: bool)

  /** `ok` is whether the init callback succeeds. */
  function WorkerEffect(x: Worker, ok: bool): Effect {
    match x.pc
    case Locking => Effect(if x.holder == Nobody then x.(holder := Itself, pc := Testing(0)) else x, false, false)
    case Testing(k) =>
      if x.state == 2 * k then Effect(x.(holder := Nobody, pc := Asleep(k)), false, false)
      else Effect(x.(pc := Working(k)), false, x.state != 2 * k + 1)
    case Waking(k) => Effect(if x.holder == Nobody then x.(holder := Itself, pc := Testing(k)) else x, false, false)
    case Working(k) =>
      var failed := k == 0 && !ok;
      var next := if failed || k == 2 then Unlocking else Testing(k + 1);
      Effect(x.(state := 2 * k + 2, pc := next, failed := failed), true, x.state != 2 * k + 1)
    case Unlocking => Effect(x.(holder := Nobody, pc := Finished), false, false)
    case _ => Effect(x, false, false)
  }

  /** cond_signal on worker t's condition variable wakes the main thread if it sleeps there. */
  function SignalMain(m: MainPC, t: nat): MainPC { if m.sub == Sleep && m.i == t then m.(sub := Wake) else m }

  function WorkerStep(w: World, t: nat, ok: bool): World
    requires t < |w.workers|
  {
    var e := WorkerEffect(w.workers[t], ok);
    World(if e.signals then SignalMain(w.main, t) else w.main, w.workers[t := e.x], w.broken || e.breaks)
  }

  function SignalWorker(x: Worker): Worker { if x.pc.Asleep? then x.(pc := Waking(x.pc.k)) else x }

  // ---- Main steps ----

  /** The state that the main thread moves a worker out of, and the one it waits on. */
  function MovesFrom(p: Phase): nat { match p case Run => 2 case Exit => 4 case _ => 0 }
  function WaitsOn(p: Phase): nat { match p case Join => 3 case Exit => 5 case _ => 1 }

  function NextPC(n: nat, m: MainPC, failed: bool): MainPC {
    if m.phase == Init && failed then MainPC(Out, m.i, Unlock)
    else if m.i + 1 < n then MainPC(m.phase, m.i + 1, if m.phase == Init then Create else Lock)
    else match m.phase
      case Init => MainPC(Run, 0, Lock)
      case Run => MainPC(Join, 0, Lock)
      case Join => MainPC(Store, 0, Lock)
      case _ => MainPC(Done, 0, Lock)
  }

  datatype MainEffect = MainEffect(main: MainPC, x: Worker, breaks: bool)

  /** One step of the main thread on the worker it is busy with, out of n. */
  function MainStepOn(n: nat, m: MainPC, x: Worker): MainEffect {
    match m.phase
    case Done => MainEffect(m, x, false)
    case Out => MainEffect(m, x, false)
    case Store => MainEffect(MainPC(Exit, 0, Lock), x, false)
    case _ =>
      match m.sub
      case Create => MainEffect(m.(sub := Lock), Worker(0, Nobody, Locking, false), false)
      case Lock =>
        if x.holder != Nobody then MainEffect(m, x, false)
        else MainEffect(m.(sub := if m.phase == Join then Test else Move), x.(holder := Main), false)
      case Move =>
        MainEffect(m.(sub := if m.phase == Run then Unlock else Test),
                   SignalWorker(x.(state := MovesFrom(m.phase) + 1)), x.state != MovesFrom(m.phase))
      case Test =>
        if x.state == WaitsOn(m.phase) then MainEffect(m.(sub := Sleep), x.(holder := Nobody), false)
        else MainEffect(m.(sub := Unlock), x, x.state != WaitsOn(m.phase) + 1)
      case Wake =>
        if x.holder != Nobody then MainEffect(m, x, false) else MainEffect(m.(sub := Test), x.(holder := Main), false)
      case Unlock =>
        MainEffect(if m.phase == Exit then m.(sub := JoinThread) else NextPC(n, m, x.failed),
                   x.(holder := Nobody), false)
      case JoinThread => MainEffect(if x.pc == Finished then NextPC(n, m, false) else m, x, false)
      case Sleep => MainEffect(m, x, false)
  }

  function MainStep(w: World): World
    requires w.main.i < |w.workers|
  {
    var e := MainStepOn(|w.workers|, w.main, w.workers[w.main.i]);
    World(e.main, w.workers[w.main.i := e.x], w.broken || e.breaks)
  }

  // ---- Runs ----

  datatype Choice = MainMoves | WorkerMoves(t: nat, ok: bool) | MainSpurious | WorkerSpurious(t: nat)

  function Step(w: World, c: Choice): World
    requires w.main.i < |w.workers|
  {
    match c
    case MainMoves => MainStep(w)
    case WorkerMoves(t, ok) => if t < |w.workers| then WorkerStep(w, t, ok) else w
    case MainSpurious => if w.main.sub == Sleep then w.(main := w.main.(sub := Wake)) else w
    case WorkerSpurious(t) =>
      if t < |w.workers| then w.(workers := w.workers[t := SignalWorker(w.workers[t])]) else w
  }

  function Start(n: nat): World {
    World(MainPC(Init, 0, Create), seq(n, _ => Worker(0, Nobody, NotCreated, false)), false)
  }

  // ---- The invariant ----

  /** How far the main thread has taken worker t: 0 not created, 1 created, 2 told to init, 3 initialised,
      4 told to run, 5 joined, 6 told to exit, 7 done. */
  function View(m: MainPC, t: nat): nat {
    match m.phase
    case Init =>
      if t < m.i then 3 else if t > m.i then 0
      else (match m.sub case Create => 0 case Lock => 1 case Move => 1 case Unlock => 3 case _ => 2)
    case Run => if t < m.i then 4 else if t > m.i then 3 else if m.sub == Unlock then 4 else 3
    case Join => if t < m.i then 5 else if t > m.i then 4 else if m.sub == Unlock then 5 else 4
    case Store => 5
    case Exit =>
      if t < m.i then 7 else if t > m.i then 5
      else (match m.sub case Lock => 5 case Move => 5 case Unlock => 7 case JoinThread => 7 case _ => 6)
    case Done => 7
    case Out => if t <= m.i then 3 else 0
  }

  /** The states a worker may be in when the main thread has taken it this far. */
  predicate StateFits(view: nat, state: nat) {
    match view
    case 0 => state == 0
    case 1 => state == 0
    case 2 => 1 <= state <= 2
    case 3 => state == 2
    case 4 => 3 <= state <= 4
    case 5 => state == 4
    case 6 => 5 <= state <= 6
    case _ => state == 6
  }

  /** The worker thread agrees with its state. A sleeping worker waits for a change that has not come. */
  predicate WorkerFits(view: nat, x: Worker) {
    match x.pc
    case NotCreated => view == 0 && !x.failed
    case Locking => view > 0 && x.state <= 1 && !x.failed
    case Testing(k) => k <= 2 && 2 * k <= x.state <= 2 * k + 1 && view > 0 && !x.failed
    case Asleep(k) => k <= 2 && x.state == 2 * k && view > 0 && !x.failed
    case Waking(k) => k <= 2 && 2 * k <= x.state <= 2 * k + 1 && view > 0 && !x.failed
    case Working(k) => k <= 2 && x.state == 2 * k + 1 && !x.failed
    case Unlocking => if x.failed then x.state == 2 else x.state == 6
    case Finished => if x.failed then x.state == 2 else x.state == 6
  }

  predicate MainHolds(m: MainPC, t: nat) {
    && m.i == t && (m.phase.Init? || m.phase.Run? || m.phase.Join? || m.phase.Exit?)
    && (m.sub.Move? || m.sub.Test? || m.sub.Unlock?)
  }

  predicate HolderFits(m: MainPC, t: nat, x: Worker) {
    && (x.holder == Main <==> MainHolds(m, t))
    && (x.holder == Itself <==> x.pc.Testing? || x.pc.Working? || x.pc.Unlocking?)
  }

  /** Subs that occur in a phase. */
  predicate SubFits(m: MainPC) {
    match m.phase
    case Init => m.sub != JoinThread
    case Run => m.sub.Lock? || m.sub.Move? || m.sub.Unlock?
    case Join => m.sub.Lock? || m.sub.Test? || m.sub.Sleep? || m.sub.Wake? || m.sub.Unlock?
    case Exit => m.sub != Create
    case Out => m.sub == Unlock
    case _ => m.sub == Lock
  }

  predicate WorkerInv(m: MainPC, t: nat, x: Worker) {
    && StateFits(View(m, t), x.state) && WorkerFits(View(m, t), x) && HolderFits(m, t, x)
    && (x.failed ==> m.i == t && (m.phase.Out? || (m.phase.Init? && (m.sub.Test? || m.sub.Wake? || m.sub.Unlock?))))
    && (m.i == t && m.sub == Sleep ==> x.state == WaitsOn(m.phase))
    && ((m.phase.Exit? && t < m.i) || m.phase.Done? ==> x.pc.Finished?)
  }

  ghost predicate Inv(w: World) {
    && !w.broken && w.main.i < |w.workers| && SubFits(w.main)
    && forall t :: 0 <= t < |w.workers| ==> WorkerInv(w.main, t, w.workers[t])
  }

  lemma InvStart(n: nat)
    requires n > 0
    ensures Inv(Start(n))
  {
  }

  lemma QuietEffectFits(m: MainPC, t: nat, x: Worker, ok: bool)
    requires SubFits(m) && WorkerInv(m, t, x) && !x.pc.Working?
    ensures var e := WorkerEffect(x, ok);
            !e.breaks && !e.signals && WorkerInv(m, t, e.x)
  {
  }

  /** The end of a callback: the main thread waits for just this state, if it waits at all. */
  lemma WorkEndFits(m: MainPC, t: nat, x: Worker, ok: bool)
    requires SubFits(m) && WorkerInv(m, t, x) && x.pc.Working?
    ensures var e := WorkerEffect(x, ok);
            !e.breaks && e.signals && WorkerInv(SignalMain(m, t), t, e.x)
  {
    var k := x.pc.k;
    assert View(m, t) == 2 * k + 2 && !MainHolds(m, t);
    if k == 0 {
      assert m.phase.Init? && m.i == t;
    }
  }

  lemma WorkerEffectFits(m: MainPC, t: nat, x: Worker, ok: bool)
    requires SubFits(m) && WorkerInv(m, t, x)
    ensures var e := WorkerEffect(x, ok);
            !e.breaks && WorkerInv(if e.signals then SignalMain(m, t) else m, t, e.x)
  {
    if x.pc.Working? {
      WorkEndFits(m, t, x, ok);
    } else {
      QuietEffectFits(m, t, x, ok);
    }
  }

  /** Waking up does not change what the main thread has done or holds. */
  lemma WakeKeepsView(m: MainPC, t: nat, u: nat, x: Worker)
    requires SubFits(m) && WorkerInv(m, u, x)
    ensures SubFits(SignalMain(m, t)) && WorkerInv(SignalMain(m, t), u, x)
  {
  }

  lemma InvWorkerStep(w: World, t: nat, ok: bool)
    requires Inv(w) && t < |w.workers|
    ensures Inv(WorkerStep(w, t, ok))
  {
    var w' := WorkerStep(w, t, ok);
    WorkerEffectFits(w.main, t, w.workers[t], ok);
    forall u | 0 <= u < |w'.workers| ensures WorkerInv(w'.main, u, w'.workers[u]) && SubFits(w'.main) {
      if u != t {
        WakeKeepsView(w.main, t, u, w.workers[u]);
      }
      WakeKeepsView(w.main, t, t, w.workers[t]);
    }
  }

  /** About to leave the current worker. */
  predicate Leaves(m: MainPC) {
    ((m.phase.Init? || m.phase.Run? || m.phase.Join?) && m.sub.Unlock?) || (m.phase.Exit? && m.sub.JoinThread?)
  }

  /** Moving on to the next worker or phase leaves every worker where it is. */
  lemma NextPCKeepsView(n: nat, m: MainPC, failed: bool, u: nat)
    requires m.i < n && u < n && SubFits(m)
    requires Leaves(m)
    ensures var m' := NextPC(n, m, failed);
            View(m', u) == View(m, u) && SubFits(m') && m'.i < n && !MainHolds(m', u) && m'.sub != Sleep
  {
  }

  lemma MainStepOther(n: nat, m: MainPC, x: Worker, u: nat, y: Worker)
    requires SubFits(m) && m.i < n && u < n && u != m.i && WorkerInv(m, m.i, x) && WorkerInv(m, u, y)
    ensures WorkerInv(MainStepOn(n, m, x).main, u, y)
  {
    if Leaves(m) {
      NextPCKeepsView(n, m, x.failed, u);
      NextPCKeepsView(n, m, false, u);
    }
  }

  /** The step of the main thread breaks nothing and keeps the invariant of the worker it is busy with. */
  ghost predicate StepFits(n: nat, m: MainPC, x: Worker) {
    var e := MainStepOn(n, m, x);
    !e.breaks && SubFits(e.main) && e.main.i < n && WorkerInv(e.main, m.i, e.x)
  }

  lemma MainMoveFits(n: nat, m: MainPC, x: Worker)
    requires SubFits(m) && m.i < n && WorkerInv(m, m.i, x) && m.sub.Move?
    ensures StepFits(n, m, x)
  {
    assert View(m, m.i) == if m.phase.Init? then 1 else if m.phase.Run? then 3 else 5;
  }

  lemma MainTestFits(n: nat, m: MainPC, x: Worker)
    requires SubFits(m) && m.i < n && WorkerInv(m, m.i, x) && m.sub.Test?
    ensures StepFits(n, m, x)
  {
  }

  lemma MainLeaveFits(n: nat, m: MainPC, x: Worker)
    requires SubFits(m) && m.i < n && WorkerInv(m, m.i, x) && Leaves(m)
    ensures StepFits(n, m, x)
  {
    NextPCKeepsView(n, m, x.failed, m.i);
    NextPCKeepsView(n, m, false, m.i);
  }

  lemma MainStepOwn(n: nat, m: MainPC, x: Worker)
    requires SubFits(m) && m.i < n && WorkerInv(m, m.i, x)
    ensures StepFits(n, m, x)
  {
    if m.sub.Move? {
      MainMoveFits(n, m, x);
    } else if m.sub.Test? {
      MainTestFits(n, m, x);
    } else if Leaves(m) {
      MainLeaveFits(n, m, x);
    }
  }

  lemma InvMainStep(w: World)
    requires Inv(w)
    ensures Inv(MainStep(w))
  {
    MainStepOwn(|w.workers|, w.main, w.workers[w.main.i]);
    forall u | 0 <= u < |w.workers| && u != w.main.i ensures WorkerInv(MainStep(w).main, u, MainStep(w).workers[u]) {
      MainStepOther(|w.workers|, w.main, w.workers[w.main.i], u, w.workers[u]);
    }
  }

  lemma InvStep(w: World, c: Choice)
    requires Inv(w)
    ensures Inv(Step(w, c))
  {
    match c
    case MainMoves => InvMainStep(w);
    case WorkerMoves(t, ok) => if t < |w.workers| { InvWorkerStep(w, t, ok); }
    case MainSpurious =>
      forall u | 0 <= u < |w.workers| ensures WorkerInv(Step(w, c).main, u, w.workers[u]) && SubFits(Step(w, c).main) {
        WakeKeepsView(w.main, w.main.i, u, w.workers[u]);
      }
    case WorkerSpurious(t) =>
  }

  /** The world after any schedule from the start with n workers. */
  function After(n: nat, choices: seq<Choice>): (w: World)
    ensures |w.workers| == n
  {
    if choices == [] then Start(n)
    else
      var front := After(n, choices[..|choices| - 1]);
      if front.main.i < n then Step(front, choices[|choices| - 1]) else front
  }

  lemma {:induction false} InvRun(n: nat, choices: seq<Choice>)
    requires n > 0
    ensures Inv(After(n, choices))
  {
    if choices == [] {
      InvStart(n);
    } else {
      InvRun(n, choices[..|choices| - 1]);
      InvStep(After(n, choices[..|choices| - 1]), choices[|choices| - 1]);
    }
  }

  // ---- Safety ----

  /** No state assertion fails on either side. */
  lemma NoAssertionFails(n: nat, choices: seq<Choice>)
    requires n > 0
    ensures !After(n, choices).broken
  {
    InvRun(n, choices);
  }

  /** No wakeup is lost: whoever sleeps still waits for a state that has not come. */
  lemma NoLostWakeup(n: nat, choices: seq<Choice>, t: nat)
    requires n > 0 && t < n
    ensures var w := After(n, choices);
            && (w.workers[t].pc.Asleep? ==> w.workers[t].state == 2 * w.workers[t].pc.k)
            && (w.main.sub.Sleep? && w.main.i == t ==> w.workers[t].state == WaitsOn(w.main.phase))
  {
    InvRun(n, choices);
    assert WorkerInv(After(n, choices).main, t, After(n, choices).workers[t]);
  }

  /** What the main thread is doing while a callback runs. */
  lemma CallbackPlace(m: MainPC, t: nat, x: Worker)
    requires WorkerInv(m, t, x)
    ensures x.pc == Working(0) ==> m.phase.Init? && m.i == t
    ensures x.pc == Working(1) ==> m.phase.Run? || m.phase.Join?
    ensures x.pc == Working(2) ==> m.phase.Exit? && m.i == t
  {
  }

  /** Init callbacks never overlap, and neither do exit callbacks: the main thread is busy with that worker. */
  lemma InitAndExitAlone(n: nat, choices: seq<Choice>, t: nat, u: nat)
    requires n > 0 && t < n && u < n
    ensures var w := After(n, choices);
            && (w.workers[t].pc == Working(0) && w.workers[u].pc == Working(0) ==> t == u)
            && (w.workers[t].pc == Working(2) && w.workers[u].pc == Working(2) ==> t == u)
  {
    InvRun(n, choices);
    var w := After(n, choices);
    CallbackPlace(w.main, t, w.workers[t]);
    CallbackPlace(w.main, u, w.workers[u]);
  }

  /** While some func runs every worker has been initialised, and none is being initialised or exiting. */
  lemma InitsPrecedeFuncs(n: nat, choices: seq<Choice>, t: nat, u: nat)
    requires n > 0 && t < n && u < n && After(n, choices).workers[t].pc == Working(1)
    ensures var y := After(n, choices).workers[u];
            2 <= y.state <= 4 && !y.failed && y.pc != Working(0) && y.pc != Working(2)
  {
    InvRun(n, choices);
    var w := After(n, choices);
    CallbackPlace(w.main, t, w.workers[t]);
    CallbackPlace(w.main, u, w.workers[u]);
    assert 3 <= View(w.main, u) <= 5;
  }

  /** When the results are stored every func has ended, and when the main thread is done every worker thread has. */
  lemma EndsInOrder(n: nat, choices: seq<Choice>, t: nat)
    requires n > 0 && t < n
    ensures var m, x := After(n, choices).main, After(n, choices).workers[t];
            && (m.phase.Store? ==> x.state == 4 && !x.pc.Working?)
            && (m.phase.Done? ==> x.state == 6 && x.pc.Finished?)
  {
    InvRun(n, choices);
    var w := After(n, choices);
    CallbackPlace(w.main, t, w.workers[t]);
  }

  // ---- Progress ----

  function WorkerRank(x: Worker): nat {
    match x.pc
    case NotCreated => 40
    case Locking => 36
    case Testing(k) => Round(k) + (if x.state == 2 * k then 5 else 2)
    case Asleep(k) => Round(k) + 4
    case Waking(k) => Round(k) + (if x.state == 2 * k then 6 else 3)
    case Working(k) => Round(k) + 1
    case Unlocking => 2
    case Finished => 0
  }

  function Round(k: nat): nat { if k == 0 then 23 else if k == 1 then 13 else 3 }

  /** Workers still to be handled in this and the later phases. */
  function Blocks(n: nat, m: MainPC): int {
    match m.phase
    case Init => 4 * n + 1 - m.i
    case Run => 3 * n + 1 - m.i
    case Join => 2 * n + 1 - m.i
    case Store => n + 1
    case Exit => n - m.i
    case _ => 0
  }

  function MainRank(n: nat, m: MainPC, x: Worker): int {
    var waits := x.state == WaitsOn(m.phase);
    12 * Blocks(n, m) +
    match m.sub
    case Create => 10
    case Lock => 9
    case Move => 8
    case Test => if waits then 6 else 3
    case Sleep => 5
    case Wake => if waits then 7 else 4
    case Unlock => 2
    case JoinThread => 1
  }

  function Total(ws: seq<Worker>): nat {
    if ws == [] then 0 else WorkerRank(ws[0]) + Total(ws[1..])
  }

  lemma {:induction false} TotalUpdate(ws: seq<Worker>, t: nat, x: Worker)
    requires t < |ws|
    ensures Total(ws[t := x]) == Total(ws) - WorkerRank(ws[t]) + WorkerRank(x)
  {
    if t == 0 {
      assert ws[t := x][1..] == ws[1..];
    } else {
      assert ws[t := x][1..] == ws[1..][t - 1 := x];
      TotalUpdate(ws[1..], t - 1, x);
    }
  }

  function Rank(w: World): int
    requires w.main.i < |w.workers|
  {
    MainRank(|w.workers|, w.main, w.workers[w.main.i]) + Total(w.workers)
  }

  lemma RankNonNegative(w: World)
    requires Inv(w)
    ensures Rank(w) >= 0
  {
  }

  lemma WorkEndRank(n: nat, m: MainPC, t: nat, x: Worker, ok: bool)
    requires SubFits(m) && WorkerInv(m, t, x) && x.pc.Working?
    ensures WorkerRank(WorkerEffect(x, ok).x) < WorkerRank(x)
    ensures m.i == t ==> MainRank(n, SignalMain(m, t), WorkerEffect(x, ok).x) <= MainRank(n, m, x)
  {
    assert View(m, t) == 2 * x.pc.k + 2 && !MainHolds(m, t);
  }

  lemma QuietRank(n: nat, m: MainPC, t: nat, x: Worker, ok: bool)
    requires WorkerInv(m, t, x) && !x.pc.Working? && WorkerEffect(x, ok).x != x
    ensures WorkerRank(WorkerEffect(x, ok).x) < WorkerRank(x)
    ensures m.i == t ==> MainRank(n, m, WorkerEffect(x, ok).x) == MainRank(n, m, x)
  {
  }

  /** A worker's own step lowers its rank and does not raise that of the main thread. */
  lemma WorkerStepRank(n: nat, m: MainPC, t: nat, x: Worker, ok: bool)
    requires SubFits(m) && WorkerInv(m, t, x) && WorkerEffect(x, ok).x != x
    ensures var e := WorkerEffect(x, ok);
            && WorkerRank(e.x) < WorkerRank(x)
            && (m.i == t ==> MainRank(n, if e.signals then SignalMain(m, t) else m, e.x) <= MainRank(n, m, x))
  {
    if x.pc.Working? {
      WorkEndRank(n, m, t, x, ok);
    } else {
      QuietRank(n, m, t, x, ok);
    }
  }

  lemma NextPCLowers(n: nat, m: MainPC, failed: bool)
    requires m.i < n && SubFits(m) && Leaves(m)
    ensures Blocks(n, NextPC(n, m, failed)) < Blocks(n, m)
  {
  }

  /** The step of the main thread does not raise the rank of the worker, and lowers its own unless nothing changed;
      `y` is the worker it turns to. */
  ghost predicate StepLowers(n: nat, m: MainPC, x: Worker, y: Worker) {
    var e := MainStepOn(n, m, x);
    && WorkerRank(e.x) <= WorkerRank(x)
    && (e.main == m ==> e.x == x)
    && (e.main != m ==> MainRank(n, e.main, if e.main.i == m.i then e.x else y) < MainRank(n, m, x))
  }

  lemma MainMoveRank(n: nat, m: MainPC, x: Worker, y: Worker)
    requires SubFits(m) && m.i < n && WorkerInv(m, m.i, x) && m.sub.Move?
    ensures StepLowers(n, m, x, y)
  {
  }

  lemma MainTestRank(n: nat, m: MainPC, x: Worker, y: Worker)
    requires SubFits(m) && m.i < n && WorkerInv(m, m.i, x) && m.sub.Test?
    ensures StepLowers(n, m, x, y)
  {
  }

  lemma MainLeaveRank(n: nat, m: MainPC, x: Worker, y: Worker)
    requires SubFits(m) && m.i < n && WorkerInv(m, m.i, x) && Leaves(m)
    ensures StepLowers(n, m, x, y)
  {
    NextPCLowers(n, m, x.failed);
    NextPCLowers(n, m, false);
  }

  lemma MainStepRank(n: nat, m: MainPC, x: Worker, y: Worker)
    requires SubFits(m) && m.i < n && WorkerInv(m, m.i, x)
    ensures StepLowers(n, m, x, y)
  {
    if m.sub.Move? {
      MainMoveRank(n, m, x, y);
    } else if m.sub.Test? {
      MainTestRank(n, m, x, y);
    } else if Leaves(m) {
      MainLeaveRank(n, m, x, y);
    }
  }

  predicate Spurious(c: Choice) { c.MainSpurious? || c.WorkerSpurious? }

  /** Every step that changes something, spurious wakeups aside, lowers the rank: runs cannot go on forever. */
  lemma StepLowersRank(w: World, c: Choice)
    requires Inv(w) && !Spurious(c) && Step(w, c) != w
    ensures Inv(Step(w, c)) && Rank(Step(w, c)) < Rank(w)
  {
    InvStep(w, c);
    var n, m := |w.workers|, w.main;
    match c
    case MainMoves =>
      var e := MainStepOn(n, m, w.workers[m.i]);
      MainStepRank(n, m, w.workers[m.i], w.workers[e.main.i]);
      TotalUpdate(w.workers, m.i, e.x);
    case WorkerMoves(t, ok) =>
      var e := WorkerEffect(w.workers[t], ok);
      if e.x == w.workers[t] {
        assert Step(w, c).workers == w.workers;
        WorkerEffectFits(m, t, w.workers[t], ok);
      } else {
        WorkerStepRank(n, m, t, w.workers[t], ok);
        TotalUpdate(w.workers, t, e.x);
      }
  }

  /** Choices that each change something and are not spurious. */
  ghost predicate Effective(w: World, choices: seq<Choice>)
    requires Inv(w)
    decreases |choices|
  {
    choices == [] ||
    (&& !Spurious(choices[0]) && Step(w, choices[0]) != w
     && (InvStep(w, choices[0]); Effective(Step(w, choices[0]), choices[1..])))
  }

  /** So every run without spurious wakeups is bounded by the rank of the world it starts in. */
  lemma {:induction false} RunsAreBounded(w: World, choices: seq<Choice>)
    requires Inv(w) && Effective(w, choices)
    ensures |choices| <= Rank(w)
    decreases |choices|
  {
    if choices == [] {
      RankNonNegative(w);
    } else {
      StepLowersRank(w, choices[0]);
      RunsAreBounded(Step(w, choices[0]), choices[1..]);
    }
  }

  /** A spurious wakeup raises the rank by at most two, and only if it wakes someone. */
  lemma WakeupRaisesRank(w: World, c: Choice)
    requires Inv(w) && Spurious(c)
    ensures Inv(Step(w, c)) && Rank(Step(w, c)) <= Rank(w) + if Step(w, c) != w then 2 else 0
  {
    InvStep(w, c);
    if c.MainSpurious? && w.main.sub.Sleep? {
      MainWakeRank(|w.workers|, w.main, w.workers[w.main.i]);
    } else if c.WorkerSpurious? && c.t < |w.workers| {
      var x := w.workers[c.t];
      WorkerWakeRank(|w.workers|, w.main, x);
      TotalUpdate(w.workers, c.t, SignalWorker(x));
      assert !x.pc.Asleep? ==> w.workers[c.t := x] == w.workers;
    }
  }

  lemma WorkerWakeRank(n: nat, m: MainPC, x: Worker)
    ensures WorkerRank(SignalWorker(x)) <= WorkerRank(x) + (if x.pc.Asleep? then 2 else 0)
    ensures MainRank(n, m, SignalWorker(x)) == MainRank(n, m, x)
  {
  }

  lemma MainWakeRank(n: nat, m: MainPC, x: Worker)
    requires m.sub.Sleep?
    ensures MainRank(n, m.(sub := Wake), x) <= MainRank(n, m, x) + 2
  {
  }

  /** How often a schedule changed something by a step of a thread, and how often by a spurious wakeup. */
  function Changes(n: nat, choices: seq<Choice>, spurious: bool): nat {
    if choices == [] then 0
    else
      var front, c := choices[..|choices| - 1], choices[|choices| - 1];
      Changes(n, front, spurious) + if Spurious(c) == spurious && After(n, choices) != After(n, front) then 1 else 0
  }

  lemma {:induction false} FreshRank(ws: seq<Worker>)
    requires forall i :: 0 <= i < |ws| ==> ws[i].pc.NotCreated?
    ensures Total(ws) == 40 * |ws|
  {
    if ws != [] {
      FreshRank(ws[1..]);
    }
  }

  /** Every schedule is bounded: the threads take at most 88 steps a worker and 22 more, and two for each spurious
      wakeup. */
  lemma {:induction false} SchedulesAreBounded(n: nat, choices: seq<Choice>)
    requires n > 0
    ensures After(n, choices).main.i < n
    ensures Changes(n, choices, false) + Rank(After(n, choices)) <= 88 * n + 22 + 2 * Changes(n, choices, true)
    ensures Changes(n, choices, false) <= 88 * n + 22 + 2 * Changes(n, choices, true)
  {
    InvRun(n, choices);
    RankNonNegative(After(n, choices));
    if choices == [] {
      FreshRank(Start(n).workers);
    } else {
      var front, c := choices[..|choices| - 1], choices[|choices| - 1];
      var w := After(n, front);
      SchedulesAreBounded(n, front);
      InvRun(n, front);
      if Spurious(c) {
        WakeupRaisesRank(w, c);
      } else if Step(w, c) != w {
        StepLowersRank(w, c);
      }
    }
  }

  /** Nobody is stuck: until the main thread is done or gives up, someone can take a step that changes something. */
  lemma SomeoneCanMove(w: World) returns (c: Choice)
    requires Inv(w) && !w.main.phase.Done? && !w.main.phase.Out?
    ensures !Spurious(c) && Step(w, c) != w && (c.WorkerMoves? ==> c.ok)
  {
    var t := w.main.i;
    var x := w.workers[t];
    assert WorkerInv(w.main, t, x);
    var e := MainStepOn(|w.workers|, w.main, x);
    if e.main != w.main {
      c := MainMoves;
    } else {
      c := WorkerMoves(t, true);
      assert WorkerEffect(x, true).x != x;
      assert Step(w, c).workers[t] != w.workers[t];
    }
  }

  // ---- What the callbacks answer, over the schedule ----

  /** Choice `c` ends callback `k` of worker `t`; `ok` is its answer. */
  ghost predicate Ends(n: nat, choices: seq<Choice>, c: nat, t: nat, k: nat, ok: bool) {
    c < |choices| && t < n && choices[c] == WorkerMoves(t, ok) && After(n, choices[..c]).workers[t].pc == Working(k)
  }

  /** How often callback `k` of worker `t` has ended. */
  ghost function Ended(n: nat, choices: seq<Choice>, t: nat, k: nat): nat {
    if choices == [] then 0
    else
      var last := |choices| - 1;
      Ended(n, choices[..last], t, k)
      + if Ends(n, choices, last, t, k, true) || Ends(n, choices, last, t, k, false) then 1 else 0
  }

  /** One choice changes the state of a worker only as a callback ends or as the main thread moves it on from an even
      state. */
  lemma StateStep(w: World, c: Choice, t: nat)
    requires Inv(w) && t < |w.workers|
    ensures var x, y := w.workers[t], Step(w, c).workers[t];
            if c.WorkerMoves? && c.t == t && x.pc.Working? then x.state == 2 * x.pc.k + 1 && y.state == 2 * x.pc.k + 2
            else y.state == x.state || (y.state == x.state + 1 && x.state in {0, 2, 4})
  {
    var x := w.workers[t];
    assert WorkerInv(w.main, t, x);
    if c.MainMoves? && t == w.main.i {
      MainStateStep(|w.workers|, w.main, x);
    }
  }

  lemma MainStateStep(n: nat, m: MainPC, x: Worker)
    requires SubFits(m) && m.i < n && WorkerInv(m, m.i, x)
    ensures var y := MainStepOn(n, m, x).x; y.state == x.state || (y.state == x.state + 1 && x.state in {0, 2, 4})
  {
  }

  /** Every callback ends exactly once by the time the state is past it, and not before: init, func and exit are each
      called once. */
  lemma {:induction false} CallbacksOnce(n: nat, choices: seq<Choice>, t: nat, k: nat)
    requires n > 0 && t < n && k <= 2
    ensures Ended(n, choices, t, k) == if After(n, choices).workers[t].state >= 2 * k + 2 then 1 else 0
  {
    if choices != [] {
      var last := |choices| - 1;
      var w, c := After(n, choices[..last]), choices[last];
      CallbacksOnce(n, choices[..last], t, k);
      InvRun(n, choices[..last]);
      StateStep(w, c, t);
    }
  }

  lemma EndsFront(n: nat, choices: seq<Choice>, c: nat, t: nat, k: nat, ok: bool)
    requires c < |choices| - 1
    ensures Ends(n, choices, c, t, k, ok) <==> Ends(n, choices[..|choices| - 1], c, t, k, ok)
  {
    assert choices[..|choices| - 1][..c] == choices[..c];
  }

  /** A worker is marked as failed only by a step in which its own init ends badly. */
  lemma FailedStep(w: World, c: Choice, t: nat)
    requires Inv(w) && t < |w.workers|
    ensures var x, y := w.workers[t], Step(w, c).workers[t];
            y.failed <==> x.failed || (c == WorkerMoves(t, false) && x.pc == Working(0))
  {
    var x := w.workers[t];
    assert WorkerInv(w.main, t, x);
    if c.MainMoves? && t == w.main.i {
      MainKeepsFailed(|w.workers|, w.main, x);
    } else if c.WorkerMoves? && c.t == t {
      OwnFailed(w.main, t, x, c.ok);
    }
  }

  lemma MainKeepsFailed(n: nat, m: MainPC, x: Worker)
    requires WorkerInv(m, m.i, x)
    ensures MainStepOn(n, m, x).x.failed == x.failed
  {
  }

  lemma OwnFailed(m: MainPC, t: nat, x: Worker, ok: bool)
    requires WorkerInv(m, t, x)
    ensures WorkerEffect(x, ok).x.failed <==> x.failed || (!ok && x.pc == Working(0))
  {
  }

  lemma FailedNext(n: nat, choices: seq<Choice>, t: nat)
    requires n > 0 && t < n && choices != []
    ensures var last := |choices| - 1;
            After(n, choices).workers[t].failed <==>
            After(n, choices[..last]).workers[t].failed || Ends(n, choices, last, t, 0, false)
  {
    InvRun(n, choices[..|choices| - 1]);
    FailedStep(After(n, choices[..|choices| - 1]), choices[|choices| - 1], t);
  }

  lemma {:induction false} FailedMeans(n: nat, choices: seq<Choice>, t: nat) returns (c: nat)
    requires n > 0 && t < n && After(n, choices).workers[t].failed
    ensures Ends(n, choices, c, t, 0, false)
  {
    var last := |choices| - 1;
    FailedNext(n, choices, t);
    if After(n, choices[..last]).workers[t].failed {
      c := FailedMeans(n, choices[..last], t);
      EndsFront(n, choices, c, t, 0, false);
    } else {
      c := last;
    }
  }

  /** Some init of worker `t` has ended badly. */
  ghost predicate BadInit(n: nat, choices: seq<Choice>, t: nat) {
    choices != [] &&
    var last := |choices| - 1;
    BadInit(n, choices[..last], t) || Ends(n, choices, last, t, 0, false)
  }

  lemma {:induction false} FailedIff(n: nat, choices: seq<Choice>, t: nat)
    requires n > 0 && t < n
    ensures After(n, choices).workers[t].failed <==> BadInit(n, choices, t)
  {
    if choices != [] {
      FailedIff(n, choices[..|choices| - 1], t);
      FailedNext(n, choices, t);
    }
  }

  lemma {:induction false} BadInitFound(n: nat, choices: seq<Choice>, c: nat, t: nat)
    requires Ends(n, choices, c, t, 0, false)
    ensures BadInit(n, choices, t)
    decreases |choices|
  {
    if c < |choices| - 1 {
      EndsFront(n, choices, c, t, 0, false);
      BadInitFound(n, choices[..|choices| - 1], c, t);
    }
  }

  lemma OutStep(w: World, c: Choice)
    requires Inv(w) && Step(w, c).main.phase.Out?
    requires w.main.phase.Out? ==> w.workers[w.main.i].failed
    ensures Step(w, c).workers[Step(w, c).main.i].failed
  {
    assert WorkerInv(w.main, w.main.i, w.workers[w.main.i]);
    FailedStep(w, c, w.main.i);
  }

  lemma {:induction false} OutHasFailed(n: nat, choices: seq<Choice>)
    requires n > 0 && After(n, choices).main.phase.Out?
    ensures After(n, choices).main.i < n && After(n, choices).workers[After(n, choices).main.i].failed
  {
    var front, c := choices[..|choices| - 1], choices[|choices| - 1];
    InvRun(n, choices);
    InvRun(n, front);
    if After(n, front).main.phase.Out? {
      OutHasFailed(n, front);
    }
    OutStep(After(n, front), c);
  }

  /** The main thread gives up only when the init of the worker it is busy with has failed. */
  lemma OutMeansFailedInit(n: nat, choices: seq<Choice>) returns (c: nat)
    requires n > 0 && After(n, choices).main.phase.Out?
    ensures Ends(n, choices, c, After(n, choices).main.i, 0, false)
  {
    OutHasFailed(n, choices);
    c := FailedMeans(n, choices, After(n, choices).main.i);
  }

  /** And once an init has failed it never gets past the init phase. */
  lemma FailedInitEndsRun(n: nat, choices: seq<Choice>, c: nat, t: nat)
    requires n > 0 && Ends(n, choices, c, t, 0, false)
    ensures After(n, choices).main.phase.Init? || After(n, choices).main.phase.Out?
  {
    BadInitFound(n, choices, c, t);
    FailedIff(n, choices, t);
    InvRun(n, choices);
    assert WorkerInv(After(n, choices).main, t, After(n, choices).workers[t]);
  }

  ghost predicate AllOk(choices: seq<Choice>) {
    forall c :: 0 <= c < |choices| && choices[c].WorkerMoves? ==> choices[c].ok
  }

  /** Whoever exits or is done has stored the results. */
  lemma {:induction false} StoresBeforeExit(n: nat, choices: seq<Choice>) returns (c: nat)
    requires n > 0 && (After(n, choices).main.phase.Exit? || After(n, choices).main.phase.Done?)
    ensures c < |choices| && After(n, choices[..c]).main.phase.Store?
  {
    var last := |choices| - 1;
    var w := After(n, choices[..last]);
    InvRun(n, choices[..last]);
    if w.main.phase.Store? {
      c := last;
    } else {
      c := StoresBeforeExit(n, choices[..last]);
      assert choices[..last][..c] == choices[..c];
    }
  }

  /** From every reachable world the run can go on to its end. If no init fails that is the regular one: all workers are
      done, and the results have been stored. */
  lemma EveryRunCanFinish(n: nat, choices: seq<Choice>) returns (more: seq<Choice>)
    requires n > 0
    ensures var m := After(n, choices + more).main; AllOk(more) && (m.phase.Done? || m.phase.Out?)
    ensures AllOk(choices) ==> After(n, choices + more).main.phase.Done?
  {
    more := FinishRun(n, choices);
    if AllOk(choices) && After(n, choices + more).main.phase.Out? {
      var c := OutMeansFailedInit(n, choices + more);
    }
  }

  function RankAfter(n: nat, choices: seq<Choice>): int {
    var w := After(n, choices);
    if w.main.i < n then Rank(w) else 0
  }

  lemma OneMoreChoice(n: nat, choices: seq<Choice>) returns (c: Choice)
    requires n > 0 && !After(n, choices).main.phase.Done? && !After(n, choices).main.phase.Out?
    ensures (c.WorkerMoves? ==> c.ok) && 0 <= RankAfter(n, choices + [c]) < RankAfter(n, choices)
  {
    var w := After(n, choices);
    InvRun(n, choices);
    c := SomeoneCanMove(w);
    StepLowersRank(w, c);
    assert (choices + [c])[..|choices|] == choices;
    RankNonNegative(Step(w, c));
  }

  lemma FinishRun(n: nat, choices: seq<Choice>) returns (more: seq<Choice>)
    requires n > 0
    ensures var m := After(n, choices + more).main; AllOk(more) && (m.phase.Done? || m.phase.Out?)
    decreases RankAfter(n, choices)
  {
    more := [];
    if After(n, choices).main.phase.Done? || After(n, choices).main.phase.Out? {
      assert choices + [] == choices;
    } else {
      var c := OneMoreChoice(n, choices);
      var rest := FinishRun(n, choices + [c]);
      more := [c] + rest;
      Regroup(choices, c, rest);
    }
  }

  lemma Regroup(choices: seq<Choice>, c: Choice, rest: seq<Choice>)
    ensures choices + [c] + rest == choices + ([c] + rest)
    ensures (c.WorkerMoves? ==> c.ok) && AllOk(rest) ==> AllOk([c] + rest)
  {
  }
}
