/** The parallel verification queue: a master and any number of workers share a LIFO queue
    of checks under one mutex and two condition variables.  Every critical section is one
    atomic step of a transition system; evaluating a check is a step of its own, so batches
    of different threads interleave freely.  Thread 0 is the master. */
module CheckQueue {

  /** A check and the value its operator() returns. */
  datatype Check = Check(id: int, ok: bool)

  /** Where a thread is: not inside Loop, blocked in cond.wait (`notified` once a wake-up is
      pending for it), or evaluating its batch without holding the mutex. */
  datatype Local =
    | Outside
    | Waiting(notified: bool)
    | Working(batch: seq<Check>, next: nat, fOk: bool)

  /** A call of Wait that returned: the checks its controller found pending when it took over, the
      checks it added itself since then or since its previous Wait, and the result. */
  datatype Round = Round(inherited: seq<Check>, own: seq<Check>, result: bool)

  datatype State = State(
    queue: seq<Check>,
    nIdle: int,
    nTotal: int,
    fAllOk: bool,
    nTodo: int,
    locals: seq<Local>,
    held: bool,              // a CCheckQueueControl exists
    fDone: bool,             // ... and its Wait has returned
    added: seq<Check>,       // history: what was added since Wait last returned
    inherited: seq<Check>,   // history: the part of it that was added before this controller came
    finished: multiset<Check>,
    rounds: seq<Round>)

  const MASTER := 0

  /** What is counted: checks in batches, blocked threads, threads inside Loop, and the
      steps still owed (see Rank). */
  datatype Measure = InFlight | Idle | Inside | Owed

  function Weight(m: Measure, l: Local): nat {
    match m
    case InFlight => if l.Working? then |l.batch| else 0
    case Idle => if l.Waiting? then 1 else 0
    case Inside => if l.Outside? then 0 else 1
    case Owed =>
      match l
      case Outside => 1
      case Waiting(notified) => if notified then 1 else 0
      case Working(batch, next, _) => 2 * |batch| + (if next < |batch| then |batch| - next else 0)
  }

  /** The checks in a thread's own batch. */
  function Batch(l: Local): multiset<Check> {
    if l.Working? then multiset(l.batch) else multiset{}
  }

  // ---------------------------------------------------------------------------------
  // Steps
  // ---------------------------------------------------------------------------------

  predicate Init(s: State) {
    && s.queue == [] && s.nIdle == 0 && s.nTotal == 0 && s.fAllOk && s.nTodo == 0
    && |s.locals| > 0 && (forall t :: 0 <= t < |s.locals| ==> s.locals[t] == Outside)
    && !s.held && !s.fDone && s.added == [] && s.inherited == [] && s.finished == multiset{} && s.rounds == []
  }

  /** CCheckQueueControl takes ControlMutex. */
  predicate Acquire(s: State, s': State) {
    !s.held && s' == s.(held := true, fDone := false, inherited := s.added)
  }

  /** Its destructor lets go once Wait has returned. */
  predicate Release(s: State, s': State) {
    |s.locals| > 0 && s.held && s.fDone && s.locals[MASTER] == Outside && s' == s.(held := false)
  }

  /** notify_one or notify_all on the workers' condition variable: one check wakes one
      blocked worker if there is any, several wake all of them, none wakes nobody. */
  predicate NotifyWorkers(locals: seq<Local>, locals': seq<Local>, n: nat) {
    if n == 0 then locals' == locals
    else if n == 1 then
      if exists t :: 0 < t < |locals| && locals[t] == Waiting(false) then
        exists t :: 0 < t < |locals| && locals[t] == Waiting(false) && locals' == locals[t := Waiting(true)]
      else locals' == locals
    else
      && |locals'| == |locals|
      && forall t :: 0 <= t < |locals| ==>
                       locals'[t] == if t != MASTER && locals[t].Waiting? then Waiting(true) else locals[t]
  }

  /** The master's Add. */
  predicate Add(s: State, s': State, checks: seq<Check>) {
    && |s.locals| > 0 && s.held && s.locals[MASTER] == Outside
    && NotifyWorkers(s.locals, s'.locals, |checks|)
    && s' == s.(queue := s.queue + checks, nTodo := s.nTodo + |checks|, locals := s'.locals,
                added := s.added + checks)
  }

  /** One check of a batch is evaluated, or skipped once the batch has failed. */
  predicate Work(s: State, s': State, t: nat) {
    && t < |s.locals| && s.locals[t].Working? && s.locals[t].next < |s.locals[t].batch|
    && var w := s.locals[t];
       s' == s.(locals := s.locals[t := w.(next := w.next + 1, fOk := w.fOk && w.batch[w.next].ok)])
  }

  /** Whether thread `t` may enter the critical section: always, except in mid-batch, and the
      master enters Loop only through a controller.  A blocked thread may wake at any time. */
  predicate MayTurn(s: State, t: nat) {
    && t < |s.locals|
    && (s.locals[t].Working? ==> s.locals[t].next == |s.locals[t].batch|)
    && (t == MASTER ==> s.held)
  }

  /** condMaster.notify_one. */
  function WakeMaster(ls: seq<Local>): (ls': seq<Local>)
    ensures |ls'| == |ls|
  {
    if |ls| > 0 && ls[MASTER] == Waiting(false) then ls[MASTER := Waiting(true)] else ls
  }

  /** The clean-up of the previous loop run, or the bookkeeping of the first: afterwards
      thread `t` is in the critical section and holds no batch. */
  function Clean(s: State, t: nat): State
    requires MayTurn(s, t)
  {
    var l := s.locals[t];
    var nTodo := s.nTodo - Weight(InFlight, l);
    var ls := s.locals[t := Outside];
    s.(nTotal := s.nTotal + 1 - Weight(Inside, l),
       nIdle := s.nIdle - Weight(Idle, l),
       fAllOk := s.fAllOk && (l.Working? ==> l.fOk),
       nTodo := nTodo,
       finished := s.finished + Batch(l),
       locals := if l.Working? && nTodo == 0 && t != MASTER then WakeMaster(ls) else ls)
  }

  function Max(a: int, b: int): int { if a < b then b else a }
  function Min(a: int, b: int): int { if a < b then a else b }

  /** How many work units to take: increasingly small batches, at least one.  (The counters
      are never negative in a run; a C++ unsigned division by a negative count would give 0.) */
  function BatchSize(queued: nat, nBatchSize: nat, nTotal: int, nIdle: int): (n: nat)
    ensures 1 <= n && (queued >= 1 ==> n <= queued) && (nBatchSize >= 1 ==> n <= nBatchSize)
  {
    if nTotal + nIdle + 1 <= 0 then 1
    else
      assert queued / (nTotal + nIdle + 1) <= queued;
      Max(1, Min(nBatchSize, queued / (nTotal + nIdle + 1)))
  }

  /** A batch is the largest share that leaves as much to every other thread and to the idle ones once
      more, but at least one check and no more than the limit. */
  lemma BatchIsShare(queued: nat, nBatchSize: nat, nTotal: nat, nIdle: nat)
    ensures var (n, d) := (BatchSize(queued, nBatchSize, nTotal, nIdle), nTotal + nIdle + 1);
            (n == 1 || n * d <= queued) && (n >= nBatchSize || queued < (n + 1) * d)
  {
    var d := nTotal + nIdle + 1;
    var q := queued / d;
    assert queued == q * d + queued % d;
    assert (q + 1) * d == q * d + d;
    if q < 1 {
      assert q * d <= 0 && (1 + 1) * d >= d;
    }
    if nBatchSize < q {
      assert q * d == nBatchSize * d + (q - nBatchSize) * d;
    }
  }

  /** The batch is swapped off the back of the queue, last element first. */
  function Reversed(xs: seq<Check>): (r: seq<Check>)
    ensures |r| == |xs|
  {
    if xs == [] then [] else [xs[|xs| - 1]] + Reversed(xs[..|xs| - 1])
  }

  lemma {:induction false} ReversedSame(xs: seq<Check>)
    ensures multiset(Reversed(xs)) == multiset(xs)
  {
    if xs == [] {
    } else {
      ReversedSame(xs[..|xs| - 1]);
      assert xs == xs[..|xs| - 1] + [xs[|xs| - 1]];
    }
  }

  /** What the present controller added since its last Wait. */
  function Own(s: State): seq<Check> { if |s.inherited| <= |s.added| then s.added[|s.inherited|..] else [] }

  /** Out of work with nothing left to do: the master's Loop returns the verdict and resets it. */
  predicate Returns(s1: State, s': State, t: nat) {
    && s1.queue == [] && t == MASTER && s1.nTodo == 0
    && t < |s1.locals|
    && s' == s1.(nTotal := s1.nTotal - 1, fAllOk := true, fDone := true,
                 locals := s1.locals[t := Outside], added := [], inherited := [], finished := multiset{},
                 rounds := s1.rounds + [Round(s1.inherited, Own(s1), s1.fAllOk)])
  }

  /** Out of work: block on the condition variable. */
  predicate Blocks(s1: State, s': State, t: nat) {
    && s1.queue == [] && !(t == MASTER && s1.nTodo == 0)
    && t < |s1.locals|
    && s' == s1.(nIdle := s1.nIdle + 1, locals := s1.locals[t := Waiting(false)])
  }

  /** Take a batch of `n` checks. */
  predicate Takes(s1: State, s': State, t: nat, n: nat) {
    && 1 <= n <= |s1.queue|
    && t < |s1.locals|
    && var rest := |s1.queue| - n;
       s' == s1.(queue := s1.queue[..rest],
                 locals := s1.locals[t := Working(Reversed(s1.queue[rest..]), 0, s1.fAllOk)])
  }

  /** One pass through the critical section of Loop by thread `t`, taking `n` checks if any
      are queued. */
  predicate TurnTaking(s: State, s': State, t: nat, n: nat) {
    && MayTurn(s, t)
    && (|| Returns(Clean(s, t), s', t)
        || Blocks(Clean(s, t), s', t)
        || Takes(Clean(s, t), s', t, n))
  }

  predicate Turn(s: State, s': State, t: nat, nBatchSize: nat) {
    && MayTurn(s, t)
    && var s1 := Clean(s, t);
       TurnTaking(s, s', t, BatchSize(|s1.queue|, nBatchSize, s1.nTotal, s1.nIdle))
  }

  ghost predicate Next(s: State, s': State, nBatchSize: nat) {
    || Acquire(s, s')
    || Release(s, s')
    || (exists checks :: Add(s, s', checks))
    || (exists t :: Work(s, s', t))
    || (exists t :: Turn(s, s', t, nBatchSize))
  }

  // ---------------------------------------------------------------------------------
  // Sums over the threads
  // ---------------------------------------------------------------------------------

  function Sum(m: Measure, ls: seq<Local>): nat {
    if ls == [] then 0 else Weight(m, ls[0]) + Sum(m, ls[1..])
  }

  lemma {:induction false} SumUpdate(m: Measure, ls: seq<Local>, t: nat, l: Local)
    requires t < |ls|
    ensures Sum(m, ls[t := l]) == Sum(m, ls) - Weight(m, ls[t]) + Weight(m, l)
    ensures Weight(m, ls[t]) <= Sum(m, ls)
  {
    if t > 0 {
      assert ls[t := l][1..] == ls[1..][t - 1 := l];
      SumUpdate(m, ls[1..], t - 1, l);
    } else {
      assert ls[t := l][1..] == ls[1..];
    }
  }

  lemma {:induction false} SumSame(m: Measure, ls: seq<Local>, ls': seq<Local>)
    requires |ls| == |ls'| && forall t :: 0 <= t < |ls| ==> Weight(m, ls[t]) == Weight(m, ls'[t])
    ensures Sum(m, ls) == Sum(m, ls')
  {
    if ls == [] {
    } else {
      SumSame(m, ls[1..], ls'[1..]);
    }
  }

  lemma {:induction false} SumZero(m: Measure, ls: seq<Local>)
    ensures Sum(m, ls) == 0 <==> forall t :: 0 <= t < |ls| ==> Weight(m, ls[t]) == 0
  {
    if ls == [] {
    } else {
      SumZero(m, ls[1..]);
      assert forall t :: 0 <= t < |ls[1..]| ==> ls[1..][t] == ls[t + 1];
      if forall t :: 0 <= t < |ls[1..]| ==> Weight(m, ls[1..][t]) == 0 {
        assert forall t :: 0 < t < |ls| ==> ls[t] == ls[1..][t - 1];
      }
    }
  }

  function Batches(ls: seq<Local>): multiset<Check> {
    if ls == [] then multiset{} else Batch(ls[0]) + Batches(ls[1..])
  }

  lemma {:induction false} BatchesUpdate(ls: seq<Local>, t: nat, l: Local)
    requires t < |ls|
    ensures Batches(ls[t := l]) + Batch(ls[t]) == Batches(ls) + Batch(l)
  {
    hide Batch;
    if t > 0 {
      assert ls[t := l][1..] == ls[1..][t - 1 := l];
      BatchesUpdate(ls[1..], t - 1, l);
      Regroup(Batch(ls[0]), Batches(ls[1..][t - 1 := l]), Batch(ls[t]), Batches(ls[1..]), Batch(l));
    } else {
      assert ls[t := l][1..] == ls[1..];
      Commute(Batch(l), Batches(ls[1..]), Batch(ls[0]));
    }
  }

  lemma Regroup(h: multiset<Check>, a: multiset<Check>, p: multiset<Check>, b: multiset<Check>, q: multiset<Check>)
    requires a + p == b + q
    ensures h + a + p == h + b + q
  {
    assert h + a + p == h + (a + p);
  }

  lemma Commute(x: multiset<Check>, r: multiset<Check>, y: multiset<Check>)
    ensures x + r + y == y + r + x
  {}

  lemma {:induction false} BatchesSame(ls: seq<Local>, ls': seq<Local>)
    requires |ls| == |ls'| && forall t :: 0 <= t < |ls| ==> Batch(ls[t]) == Batch(ls'[t])
    ensures Batches(ls) == Batches(ls')
  {
    if ls == [] {
    } else {
      BatchesSame(ls[1..], ls'[1..]);
    }
  }

  // ---------------------------------------------------------------------------------
  // The invariant of every run
  // ---------------------------------------------------------------------------------

  predicate AllOk(checks: seq<Check>) {
    forall i :: 0 <= i < |checks| ==> checks[i].ok
  }

  /** A thread's verdict so far is right about the part of its batch it has evaluated, and
      it gives up only when some check of this round is bad. */
  predicate LocalOk(l: Local, added: seq<Check>) {
    l.Working? ==>
      && |l.batch| >= 1 && l.next <= |l.batch|
      && (l.fOk ==> AllOk(l.batch[..l.next]))
      && (!l.fOk ==> !AllOk(added))
  }

  /** nTodo, nIdle and nTotal count what their comments say. */
  predicate Counts(s: State) {
    && |s.locals| > 0
    && s.nTodo == |s.queue| + Sum(InFlight, s.locals)
    && s.nIdle == Sum(Idle, s.locals)
    && s.nTotal == Sum(Inside, s.locals)
  }

  /** Every added check is queued, in some batch, or finished; verdicts are about this round. */
  ghost predicate Verdicts(s: State) {
    && multiset(s.added) == multiset(s.queue) + Batches(s.locals) + s.finished
    && (s.fAllOk ==> forall c :: c in s.finished ==> c.ok)
    && (!s.fAllOk ==> !AllOk(s.added))
    && forall t :: 0 <= t < |s.locals| ==> LocalOk(s.locals[t], s.added)
  }

  /** The master blocks only while work is left, and only if nothing is queued. */
  predicate NoLostWakeup(s: State) {
    && |s.locals| > 0
    && (s.locals[MASTER] == Waiting(false) ==> s.queue == [] && s.nTodo > 0)
    && (s.locals[MASTER] != Outside ==> s.held)
  }

  predicate RoundsOk(rounds: seq<Round>) {
    forall i :: 0 <= i < |rounds| ==> (rounds[i].result <==> AllOk(rounds[i].inherited) && AllOk(rounds[i].own))
  }

  /** What is pending was inherited or added by this controller, and only a controller that has
      not waited yet has inherited anything. */
  predicate Handover(s: State) {
    && s.inherited <= s.added
    && (s.fDone || !s.held ==> s.inherited == [])
  }

  /** Not all workers sleep while checks are queued. */
  predicate Awake(s: State) {
    s.queue != [] && |s.locals| > 1 ==> exists t :: 0 < t < |s.locals| && s.locals[t] != Waiting(false)
  }

  ghost predicate Inv(s: State) {
    Counts(s) && Verdicts(s) && NoLostWakeup(s) && RoundsOk(s.rounds) && Handover(s) && Awake(s)
  }

  lemma InitInv(s: State)
    requires Init(s)
    ensures Inv(s)
  {
    SumZero(InFlight, s.locals);
    SumZero(Idle, s.locals);
    SumZero(Inside, s.locals);
    BatchesSame(s.locals, seq(|s.locals|, _ => Outside));
    NoBatches(|s.locals|);
  }

  lemma {:induction false} NoBatches(n: nat)
    ensures Batches(seq(n, _ => Outside)) == multiset{}
  {
    if n == 0 {
    } else {
      assert seq(n, _ => Outside)[1..] == seq(n - 1, _ => Outside);
      NoBatches(n - 1);
    }
  }

  lemma NotifyKeeps(ls: seq<Local>, ls': seq<Local>, n: nat)
    requires |ls| > 0 && NotifyWorkers(ls, ls', n)
    ensures |ls'| == |ls| && ls'[MASTER] == ls[MASTER]
    ensures forall t :: 0 <= t < |ls| ==> ls'[t] == ls[t] || (ls[t].Waiting? && ls'[t].Waiting?)
    ensures Sum(InFlight, ls') == Sum(InFlight, ls) && Sum(Idle, ls') == Sum(Idle, ls)
    ensures Sum(Inside, ls') == Sum(Inside, ls) && Batches(ls') == Batches(ls)
  {
    SumSame(InFlight, ls, ls');
    SumSame(Idle, ls, ls');
    SumSame(Inside, ls, ls');
    BatchesSame(ls, ls');
  }

  lemma NotifyWakes(ls: seq<Local>, ls': seq<Local>, n: nat)
    requires |ls| > 1 && n > 0 && NotifyWorkers(ls, ls', n)
    ensures exists t :: 0 < t < |ls'| && ls'[t] != Waiting(false)
  {
    if n == 1 {
      if t :| 0 < t < |ls| && ls[t] == Waiting(false) && ls' == ls[t := Waiting(true)] {
        assert ls'[t] != Waiting(false);
      } else {
        assert ls'[1] != Waiting(false);
      }
    } else {
      assert ls'[1] != Waiting(false);
    }
  }

  lemma AddInv(s: State, s': State, checks: seq<Check>)
    requires Inv(s) && Add(s, s', checks)
    ensures Inv(s')
  {
    NotifyKeeps(s.locals, s'.locals, |checks|);
    if checks != [] && |s.locals| > 1 {
      NotifyWakes(s.locals, s'.locals, |checks|);
    }
    assert !AllOk(s.added) ==> !AllOk(s.added + checks) by {
      assert (s.added + checks)[..|s.added|] == s.added;
    }
    forall t | 0 <= t < |s'.locals| ensures LocalOk(s'.locals[t], s'.added) {
      assert LocalOk(s.locals[t], s.added);
    }
  }

  lemma WorkInv(s: State, s': State, t: nat)
    requires Inv(s) && Work(s, s', t)
    ensures Inv(s')
  {
    var w, w' := s.locals[t], s'.locals[t];
    SumUpdate(InFlight, s.locals, t, w');
    SumUpdate(Idle, s.locals, t, w');
    SumUpdate(Inside, s.locals, t, w');
    BatchesSame(s.locals, s'.locals);
    WorkVerdict(s, s', t);
    StaysAwake(s, s', t);
  }

  lemma StaysAwake(s: State, s': State, t: nat)
    requires Awake(s) && Moved(s.locals, s'.locals, t) && (t == MASTER || s'.locals[t] != Waiting(false))
    requires s'.queue != [] ==> s.queue != []
    ensures Awake(s')
  {
    if s'.queue != [] && |s.locals| > 1 {
      var u :| 0 < u < |s.locals| && s.locals[u] != Waiting(false);
      assert s'.locals[if t == MASTER then u else t] != Waiting(false);
    }
  }

  lemma WorkVerdict(s: State, s': State, t: nat)
    requires Verdicts(s) && Work(s, s', t)
    ensures LocalOk(s'.locals[t], s.added)
  {
    var w := s.locals[t];
    assert LocalOk(w, s.added);
    assert w.batch[..w.next + 1] == w.batch[..w.next] + [w.batch[w.next]];
    if w.fOk && !w.batch[w.next].ok {
      InBatchIsAdded(s, t, w.batch[w.next]);
    }
  }

  lemma {:induction false} BatchInBatches(ls: seq<Local>, t: nat)
    requires t < |ls|
    ensures Batch(ls[t]) <= Batches(ls)
  {
    if t == 0 {
    } else {
      BatchInBatches(ls[1..], t - 1);
    }
  }

  /** A bad check found in a batch is a bad check of this round. */
  lemma InBatchIsAdded(s: State, t: nat, c: Check)
    requires Verdicts(s) && t < |s.locals| && c in Batch(s.locals[t]) && !c.ok
    ensures !AllOk(s.added)
  {
    BatchInBatches(s.locals, t);
    assert c in multiset(s.added);
    assert c in s.added;
  }

  /** The effect of a turn on the other threads: at most the master's wake-up. */
  predicate Moved(ls: seq<Local>, ls': seq<Local>, t: nat) {
    && t < |ls| == |ls'|
    && forall u :: 0 <= u < |ls| && u != t ==>
                     ls'[u] == ls[u] || (u == MASTER && ls[u] == Waiting(false) && ls'[u] == Waiting(true))
  }

  lemma SumMoved(m: Measure, ls: seq<Local>, ls': seq<Local>, t: nat)
    requires Moved(ls, ls', t) && m != Owed
    ensures Sum(m, ls') == Sum(m, ls) - Weight(m, ls[t]) + Weight(m, ls'[t])
  {
    SumUpdate(m, ls, t, ls'[t]);
    SumSame(m, ls[t := ls'[t]], ls');
  }

  lemma BatchesMoved(ls: seq<Local>, ls': seq<Local>, t: nat)
    requires Moved(ls, ls', t)
    ensures Batches(ls') + Batch(ls[t]) == Batches(ls) + Batch(ls'[t])
  {
    BatchesUpdate(ls, t, ls'[t]);
    BatchesSame(ls[t := ls'[t]], ls');
  }

  lemma CleanMoved(s: State, t: nat)
    requires MayTurn(s, t)
    ensures Moved(s.locals, Clean(s, t).locals, t) && Clean(s, t).locals[t] == Outside
  {
  }

  /** What leaves a batch is finished. */
  lemma CleanConserves(s: State, s1: State, t: nat)
    requires MayTurn(s, t) && s1 == Clean(s, t)
    requires multiset(s.added) == multiset(s.queue) + Batches(s.locals) + s.finished
    ensures multiset(s1.added) == multiset(s1.queue) + Batches(s1.locals) + s1.finished
  {
    CleanMoved(s, t);
    var leaving := Batch(s.locals[t]);
    BatchesMoved(s.locals, s1.locals, t);
    calc {
      multiset(s1.queue) + Batches(s1.locals) + s1.finished;
      multiset(s.queue) + (Batches(s1.locals) + leaving) + s.finished;
      multiset(s.queue) + Batches(s.locals) + s.finished;
    }
  }

  lemma CleanVerdicts(s: State, s1: State, t: nat)
    requires Verdicts(s) && MayTurn(s, t) && s1 == Clean(s, t)
    ensures Verdicts(s1)
  {
    CleanConserves(s, s1, t);
    CleanMoved(s, t);
    var l := s.locals[t];
    assert LocalOk(l, s.added);
    if l.Working? {
      assert l.batch[..l.next] == l.batch;
      assert l.fOk ==> forall c :: c in multiset(l.batch) ==> c in l.batch && c.ok;
    }
    forall u | 0 <= u < |s1.locals| ensures LocalOk(s1.locals[u], s1.added) {
      assert LocalOk(s.locals[u], s.added);
    }
  }

  /** The counters while thread `t` is inside the critical section. */
  predicate MidCounts(s1: State) {
    && |s1.locals| > 0
    && s1.nTodo == |s1.queue| + Sum(InFlight, s1.locals)
    && s1.nIdle == Sum(Idle, s1.locals)
    && s1.nTotal == Sum(Inside, s1.locals) + 1
  }

  lemma CleanCounts(s: State, s1: State, t: nat)
    requires Counts(s) && MayTurn(s, t) && s1 == Clean(s, t)
    ensures MidCounts(s1)
  {
    CleanMoved(s, t);
    SumMoved(InFlight, s.locals, s1.locals, t);
    SumMoved(Idle, s.locals, s1.locals, t);
    SumMoved(Inside, s.locals, s1.locals, t);
  }

  /** A worker that finishes the last check wakes the blocked master. */
  lemma CleanWakeup(s: State, s1: State, t: nat)
    requires Counts(s) && NoLostWakeup(s) && MayTurn(s, t) && s1 == Clean(s, t)
    ensures NoLostWakeup(s1) && (t == MASTER ==> s1.held)
  {
    CleanCounts(s, s1, t);
  }

  /** What enters a batch was queued. */
  lemma TakeConserves(s1: State, s': State, t: nat, n: nat)
    requires t < |s1.locals| && s1.locals[t] == Outside && Takes(s1, s', t, n)
    requires multiset(s1.added) == multiset(s1.queue) + Batches(s1.locals) + s1.finished
    ensures multiset(s'.added) == multiset(s'.queue) + Batches(s'.locals) + s'.finished
  {
    var rest := |s1.queue| - n;
    var entering := s1.queue[rest..];
    BatchesUpdate(s1.locals, t, s'.locals[t]);
    ReversedSame(entering);
    assert s1.queue == s1.queue[..rest] + entering;
    calc {
      multiset(s'.queue) + Batches(s'.locals) + s'.finished;
      multiset(s'.queue) + (Batches(s1.locals) + multiset(entering)) + s'.finished;
      multiset(s1.queue) + Batches(s1.locals) + s1.finished;
    }
  }

  lemma TakeVerdicts(s1: State, s': State, t: nat, n: nat)
    requires t < |s1.locals| && s1.locals[t] == Outside && Takes(s1, s', t, n) && Verdicts(s1)
    ensures Verdicts(s')
  {
    TakeConserves(s1, s', t, n);
    forall u | 0 <= u < |s'.locals| ensures LocalOk(s'.locals[u], s'.added) {
      assert LocalOk(s1.locals[u], s1.added);
    }
  }

  lemma BlockVerdicts(s1: State, s': State, t: nat)
    requires t < |s1.locals| && s1.locals[t] == Outside && Blocks(s1, s', t) && Verdicts(s1)
    ensures Verdicts(s')
  {
    BatchesSame(s1.locals, s'.locals);
    forall u | 0 <= u < |s'.locals| ensures LocalOk(s'.locals[u], s'.added) {
      assert LocalOk(s1.locals[u], s1.added);
    }
  }

  /** When Wait returns, no batch is out, and the verdict is about exactly the checks of this
      round. */
  lemma ReturnVerdicts(s1: State, s': State, t: nat)
    requires t < |s1.locals| && s1.locals[t] == Outside && Returns(s1, s', t)
    requires Verdicts(s1) && Sum(InFlight, s1.locals) == 0
    ensures Verdicts(s') && (s1.fAllOk <==> AllOk(s1.added))
  {
    SumZero(InFlight, s1.locals);
    assert forall u :: 0 <= u < |s1.locals| ==> LocalOk(s1.locals[u], s1.added);
    AllFinished(s1);
    assert s'.locals == s1.locals;
    forall u | 0 <= u < |s'.locals| ensures LocalOk(s'.locals[u], s'.added) {
      assert Weight(InFlight, s1.locals[u]) == 0;
    }
  }

  lemma RoundsMore(s1: State)
    requires RoundsOk(s1.rounds) && Handover(s1) && (s1.fAllOk <==> AllOk(s1.added))
    ensures RoundsOk(s1.rounds + [Round(s1.inherited, Own(s1), s1.fAllOk)])
  {
    assert s1.added == s1.inherited + Own(s1);
    assert AllOk(s1.added) <==> AllOk(s1.inherited) && AllOk(Own(s1)) by {
      AllOkBoth(s1.inherited, Own(s1));
    }
  }

  lemma AllOkBoth(a: seq<Check>, b: seq<Check>)
    ensures AllOk(a + b) <==> AllOk(a) && AllOk(b)
  {
    assert forall i :: 0 <= i < |a| ==> (a + b)[i] == a[i];
    assert forall i :: 0 <= i < |b| ==> (a + b)[|a| + i] == b[i];
  }

  lemma FromMid(s1: State, s': State, t: nat, n: nat)
    requires t < |s1.locals| && s1.locals[t] == Outside && (t == MASTER ==> s1.held)
    requires MidCounts(s1) && Verdicts(s1) && NoLostWakeup(s1) && RoundsOk(s1.rounds) && Handover(s1) && Awake(s1)
    requires Returns(s1, s', t) || Blocks(s1, s', t) || Takes(s1, s', t, n)
    ensures Inv(s')
  {
    hide Verdicts, Sum, Reversed, RoundsOk;
    SumUpdate(InFlight, s1.locals, t, s'.locals[t]);
    SumUpdate(Idle, s1.locals, t, s'.locals[t]);
    SumUpdate(Inside, s1.locals, t, s'.locals[t]);
    if Returns(s1, s', t) {
      ReturnVerdicts(s1, s', t);
      RoundsMore(s1);
    } else if Blocks(s1, s', t) {
      BlockVerdicts(s1, s', t);
    } else {
      TakeVerdicts(s1, s', t, n);
      StaysAwake(s1, s', t);
    }
  }

  lemma TurnInv(s: State, s': State, t: nat, n: nat)
    requires Inv(s) && TurnTaking(s, s', t, n)
    ensures Inv(s')
  {
    var s1 := Clean(s, t);
    CleanMoved(s, t);
    CleanCounts(s, s1, t);
    CleanVerdicts(s, s1, t);
    CleanWakeup(s, s1, t);
    StaysAwake(s, s1, t);
    FromMid(s1, s', t, n);
  }

  /** When nothing is left to do, the verdict is about exactly the checks of this round. */
  lemma AllFinished(s: State)
    requires Verdicts(s) && s.queue == [] && forall t :: 0 <= t < |s.locals| ==> Weight(InFlight, s.locals[t]) == 0
    ensures Batches(s.locals) == multiset{} && multiset(s.added) == s.finished
    ensures s.fAllOk <==> AllOk(s.added)
  {
    forall t | 0 <= t < |s.locals| ensures Batch(s.locals[t]) == multiset{} {
      assert Weight(InFlight, s.locals[t]) == 0;
    }
    BatchesSame(s.locals, seq(|s.locals|, _ => Outside));
    NoBatches(|s.locals|);
    assert forall i :: 0 <= i < |s.added| ==> s.added[i] in multiset(s.added);
  }

  lemma NextInv(s: State, s': State, nBatchSize: nat)
    requires Inv(s) && Next(s, s', nBatchSize)
    ensures Inv(s')
  {
    if checks :| Add(s, s', checks) {
      AddInv(s, s', checks);
    } else if t :| Work(s, s', t) {
      WorkInv(s, s', t);
    } else if t :| Turn(s, s', t, nBatchSize) {
      var s1 := Clean(s, t);
      TurnInv(s, s', t, BatchSize(|s1.queue|, nBatchSize, s1.nTotal, s1.nIdle));
    }
  }

  // ---------------------------------------------------------------------------------
  // Whole runs
  // ---------------------------------------------------------------------------------

  /** A run from an initial state; its last state is any reachable state. */
  ghost predicate IsRun(run: seq<State>, nBatchSize: nat) {
    && |run| > 0
    && if |run| == 1 then Init(run[0])
       else IsRun(run[..|run| - 1], nBatchSize) && Next(run[|run| - 2], run[|run| - 1], nBatchSize)
  }

  lemma Extend(run: seq<State>, s': State, nBatchSize: nat)
    requires IsRun(run, nBatchSize) && Next(run[|run| - 1], s', nBatchSize)
    ensures IsRun(run + [s'], nBatchSize)
  {
    assert (run + [s'])[..|run|] == run;
  }

  function Last(run: seq<State>): State
    requires |run| > 0
  {
    run[|run| - 1]
  }

  lemma {:induction false} RunInv(run: seq<State>, nBatchSize: nat)
    requires IsRun(run, nBatchSize)
    ensures Inv(Last(run))
  {
    if |run| == 1 {
      InitInv(run[0]);
    } else {
      RunInv(run[..|run| - 1], nBatchSize);
      NextInv(run[|run| - 2], run[|run| - 1], nBatchSize);
    }
  }

  /** In every run, with any number of workers and any interleaving: nTodo is the number of
      queued and in-flight checks, and every Wait that has returned did so with true exactly
      when every check its controller added, and every check it inherited, evaluates to true. */
  lemma WaitIsExact(run: seq<State>, nBatchSize: nat)
    requires IsRun(run, nBatchSize)
    ensures var s := Last(run);
            && s.nTodo == |s.queue| + Sum(InFlight, s.locals)
            && forall r :: r in s.rounds ==> (r.result <==> AllOk(r.inherited) && AllOk(r.own))
  {
    RunInv(run, nBatchSize);
  }

  /** In every run, as long as checks are queued and there are workers, some worker is not asleep without
      a wake-up pending for it. */
  lemma SomeWorkerAwake(run: seq<State>, nBatchSize: nat)
    requires IsRun(run, nBatchSize) && Last(run).queue != [] && |Last(run).locals| > 1
    ensures var s := Last(run); exists t :: 0 < t < |s.locals| && s.locals[t] != Waiting(false)
  {
    RunInv(run, nBatchSize);
  }

  /** A master that blocks with no wake-up pending left an empty queue, and some worker still
      holds an unfinished batch. */
  lemma BlockedMasterHasWorker(run: seq<State>, nBatchSize: nat)
    requires IsRun(run, nBatchSize)
    requires Last(run).locals != [] && Last(run).locals[MASTER] == Waiting(false)
    ensures var s := Last(run);
            s.queue == [] && exists t :: 0 < t < |s.locals| && s.locals[t].Working? && s.locals[t].batch != []
  {
    RunInv(run, nBatchSize);
    var s := Last(run);
    SumZero(InFlight, s.locals);
    var t :| 0 <= t < |s.locals| && Weight(InFlight, s.locals[t]) != 0;
    assert t != MASTER && s.locals[t].Working?;
  }

  /** A thread that will run without a spurious wake-up. */
  predicate Runnable(s: State, t: nat) {
    t < |s.locals| && s.locals[t] != Waiting(false) && (t == MASTER ==> s.locals[t] != Outside)
  }

  predicate ThreadStep(s: State, s': State, t: nat, nBatchSize: nat) {
    Work(s, s', t) || Turn(s, s', t, nBatchSize)
  }

  /** While the master is in Wait some thread can run, and every thread that can run has a
      step: no reachable state is stuck. */
  lemma NeverStuck(run: seq<State>, nBatchSize: nat)
    requires IsRun(run, nBatchSize)
    requires Last(run).locals != [] && Last(run).locals[MASTER] != Outside
    ensures exists t :: Runnable(Last(run), t)
    ensures forall t :: Runnable(Last(run), t) ==> exists s' :: ThreadStep(Last(run), s', t, nBatchSize)
  {
    RunInv(run, nBatchSize);
    var s := Last(run);
    if s.locals[MASTER] == Waiting(false) {
      BlockedMasterHasWorker(run, nBatchSize);
      var t :| 0 < t < |s.locals| && s.locals[t].Working?;
      assert Runnable(s, t);
    } else {
      assert Runnable(s, MASTER);
    }
    forall t | Runnable(s, t) ensures exists s' :: ThreadStep(s, s', t, nBatchSize) {
      var s' := StepOf(s, t, nBatchSize);
    }
  }

  lemma StepOf(s: State, t: nat, nBatchSize: nat) returns (s': State)
    requires Inv(s) && Runnable(s, t)
    ensures ThreadStep(s, s', t, nBatchSize)
  {
    var l := s.locals[t];
    assert LocalOk(l, s.added);
    if l.Working? && l.next < |l.batch| {
      s' := s.(locals := s.locals[t := l.(next := l.next + 1, fOk := l.fOk && l.batch[l.next].ok)]);
    } else {
      var s1 := Clean(s, t);
      s' := Decide(s1, t, BatchSize(|s1.queue|, nBatchSize, s1.nTotal, s1.nIdle));
    }
  }

  /** Inside the critical section a thread always returns, blocks or takes a batch. */
  lemma Decide(s1: State, t: nat, n: nat) returns (s': State)
    requires t < |s1.locals| && 1 <= n && (s1.queue != [] ==> n <= |s1.queue|)
    ensures Returns(s1, s', t) || Blocks(s1, s', t) || Takes(s1, s', t, n)
  {
    if s1.queue != [] {
      var rest := |s1.queue| - n;
      s' := s1.(queue := s1.queue[..rest],
                locals := s1.locals[t := Working(Reversed(s1.queue[rest..]), 0, s1.fAllOk)]);
    } else if t == MASTER && s1.nTodo == 0 {
      s' := s1.(nTotal := s1.nTotal - 1, fAllOk := true, fDone := true,
                locals := s1.locals[t := Outside], added := [], inherited := [], finished := multiset{},
                rounds := s1.rounds + [Round(s1.inherited, Own(s1), s1.fAllOk)]);
    } else {
      s' := s1.(nIdle := s1.nIdle + 1, locals := s1.locals[t := Waiting(false)]);
    }
  }

  /** A bound on the steps the threads can still take before Wait returns. */
  function Rank(s: State): nat {
    4 * |s.queue| + Sum(Owed, s.locals)
  }

  lemma WakeMasterOwes(ls: seq<Local>)
    ensures Sum(Owed, WakeMaster(ls)) <= Sum(Owed, ls) + 1
  {
    if |ls| > 0 && ls[MASTER] == Waiting(false) {
      SumUpdate(Owed, ls, MASTER, Waiting(true));
    }
  }

  lemma CleanOwes(s: State, s1: State, t: nat)
    requires MayTurn(s, t) && s1 == Clean(s, t)
    ensures Sum(Owed, s1.locals) <=
            Sum(Owed, s.locals) + 1 - Weight(Owed, s.locals[t]) + (if s.locals[t].Working? then 1 else 0)
  {
    SumUpdate(Owed, s.locals, t, Outside);
    WakeMasterOwes(s.locals[t := Outside]);
  }

  lemma DecisionOwes(s1: State, s': State, t: nat, n: nat)
    requires t < |s1.locals| && s1.locals[t] == Outside && (Blocks(s1, s', t) || Takes(s1, s', t, n))
    ensures Rank(s') < Rank(s1)
  {
    SumUpdate(Owed, s1.locals, t, s'.locals[t]);
  }

  /** Every step that is not a spurious wake-up brings the return of Wait closer, so Wait
      returns after at most Rank(s) of them. */
  lemma StepsRunOut(s: State, s': State, t: nat, nBatchSize: nat)
    requires Inv(s) && Runnable(s, t) && ThreadStep(s, s', t, nBatchSize)
    ensures Rank(s') < Rank(s) || (t == MASTER && |s'.rounds| == |s.rounds| + 1)
  {
    assert LocalOk(s.locals[t], s.added);
    if Work(s, s', t) {
      SumUpdate(Owed, s.locals, t, s'.locals[t]);
    } else {
      var s1 := Clean(s, t);
      TurnRunsOut(s, s1, s', t, BatchSize(|s1.queue|, nBatchSize, s1.nTotal, s1.nIdle));
    }
  }

  lemma TurnRunsOut(s: State, s1: State, s': State, t: nat, n: nat)
    requires MayTurn(s, t) && s.locals[t] != Waiting(false) && s1 == Clean(s, t)
    requires s.locals[t].Working? ==> s.locals[t].batch != []
    requires Returns(s1, s', t) || Blocks(s1, s', t) || Takes(s1, s', t, n)
    ensures Rank(s') < Rank(s) || (t == MASTER && |s'.rounds| == |s.rounds| + 1)
  {
    CleanMoved(s, t);
    CleanOwes(s, s1, t);
    assert Rank(s1) <= Rank(s);
    if !Returns(s1, s', t) {
      DecisionOwes(s1, s', t, n);
    }
  }

  /** Some thread takes a step that is not a spurious wake-up. */
  ghost predicate Goes(s: State, s': State, nBatchSize: nat) {
    exists t :: Runnable(s, t) && ThreadStep(s, s', t, nBatchSize)
  }

  /** States that follow one another by such steps. */
  ghost predicate Goings(path: seq<State>, nBatchSize: nat) {
    forall i :: 0 < i < |path| ==> Goes(path[i - 1], path[i], nBatchSize)
  }

  /** The master is inside Wait. */
  predicate InWait(s: State) { s.locals != [] && s.locals[MASTER] != Outside }

  /** Until Wait returns the master stays inside it. */
  lemma GoesOn(s: State, s': State, nBatchSize: nat)
    requires Inv(s) && InWait(s) && Goes(s, s', nBatchSize)
    ensures Inv(s') && (|s'.rounds| == |s.rounds| + 1 || (InWait(s') && s'.rounds == s.rounds && Rank(s') < Rank(s)))
  {
    hide Inv, Rank;
    var t :| Runnable(s, t) && ThreadStep(s, s', t, nBatchSize);
    assert Next(s, s', nBatchSize);
    NextInv(s, s', nBatchSize);
    StepsRunOut(s, s', t, nBatchSize);
    StaysInWait(s, s', t, nBatchSize);
  }

  lemma StaysInWait(s: State, s': State, t: nat, nBatchSize: nat)
    requires InWait(s) && ThreadStep(s, s', t, nBatchSize)
    ensures |s'.rounds| == |s.rounds| + 1 || (InWait(s') && s'.rounds == s.rounds)
  {
    hide Reversed, BatchSize;
  }

  /** A waiting master has something owed to it. */
  lemma SomethingOwed(s: State)
    requires Inv(s) && InWait(s)
    ensures Rank(s) > 0
  {
    if s.locals[MASTER] == Waiting(false) {
      SumZero(InFlight, s.locals);
      var t :| 0 <= t < |s.locals| && Weight(InFlight, s.locals[t]) != 0;
      SumUpdate(Owed, s.locals, t, Outside);
    } else {
      assert LocalOk(s.locals[MASTER], s.added);
      SumUpdate(Owed, s.locals, MASTER, Outside);
    }
  }

  ghost predicate ReturnsWithin(path: seq<State>, n: nat) {
    exists i :: 0 < i <= n && i < |path| && |path[i].rounds| == |path[0].rounds| + 1
  }

  /** However the threads are scheduled, Wait has returned after at most Rank(s) steps that are not
      spurious wake-ups. */
  lemma {:induction false} ReturnsInTime(path: seq<State>, nBatchSize: nat)
    requires Goings(path, nBatchSize) && path != [] && Inv(path[0]) && InWait(path[0]) && |path| > Rank(path[0])
    ensures ReturnsWithin(path, Rank(path[0]))
    decreases |path|
  {
    hide Inv, Rank, Goes;
    SomethingOwed(path[0]);
    assert Goes(path[0], path[1], nBatchSize);
    GoesOn(path[0], path[1], nBatchSize);
    if |path[1].rounds| == |path[0].rounds| + 1 {
    } else {
      var rest := path[1..];
      ReturnsInTime(rest, nBatchSize);
      var i :| 0 < i <= Rank(rest[0]) && i < |rest| && |rest[i].rounds| == |rest[0].rounds| + 1;
      assert path[i + 1] == rest[i];
    }
  }

  lemma GoFrom(run: seq<State>, nBatchSize: nat) returns (s': State)
    requires IsRun(run, nBatchSize) && InWait(Last(run))
    ensures Goes(Last(run), s', nBatchSize) && IsRun(run + [s'], nBatchSize)
  {
    hide Work, Turn;
    NeverStuck(run, nBatchSize);
    var t :| Runnable(Last(run), t);
    s' :| ThreadStep(Last(run), s', t, nBatchSize);
    assert Next(Last(run), s', nBatchSize);
    Extend(run, s', nBatchSize);
  }

  lemma {:induction false} GoUntilReturn(run: seq<State>, nBatchSize: nat) returns (path: seq<State>)
    requires IsRun(run, nBatchSize) && InWait(Last(run))
    ensures Goings(path, nBatchSize) && path != [] && path[0] == Last(run) && |path| <= Rank(Last(run)) + 1
    ensures |path[|path| - 1].rounds| == |Last(run).rounds| + 1
    decreases Rank(Last(run))
  {
    hide Inv, Rank, Goes, Next, Init;
    var s := Last(run);
    RunInv(run, nBatchSize);
    SomethingOwed(s);
    var s' := GoFrom(run, nBatchSize);
    GoesOn(s, s', nBatchSize);
    if |s'.rounds| == |s.rounds| + 1 {
      path := [s, s'];
    } else {
      var rest := GoUntilReturn(run + [s'], nBatchSize);
      path := [s] + rest;
    }
  }

  /** From every reachable state in which the master waits, the threads can go on until Wait returns,
      and however they do, it has returned after at most Rank(s) steps that are not spurious
      wake-ups. */
  lemma WaitReturns(run: seq<State>, nBatchSize: nat) returns (path: seq<State>)
    requires IsRun(run, nBatchSize) && InWait(Last(run))
    ensures Goings(path, nBatchSize) && path != [] && path[0] == Last(run) && |path| <= Rank(Last(run)) + 1
    ensures |path[|path| - 1].rounds| == |Last(run).rounds| + 1
    ensures forall other: seq<State> ::
              Goings(other, nBatchSize) && |other| > Rank(Last(run)) && other[0] == Last(run) ==>
                ReturnsWithin(other, Rank(Last(run)))
  {
    hide Inv, Rank, Goings, ReturnsWithin;
    RunInv(run, nBatchSize);
    path := GoUntilReturn(run, nBatchSize);
    forall other: seq<State> | Goings(other, nBatchSize) && |other| > Rank(Last(run)) && other[0] == Last(run)
      ensures ReturnsWithin(other, Rank(Last(run)))
    {
      ReturnsInTime(other, nBatchSize);
    }
  }

  // ---------------------------------------------------------------------------------
  // From one controller to the next
  // ---------------------------------------------------------------------------------

  /** Nothing in the queue tells it from a new one. */
  predicate Unused(s: State) {
    s.queue == [] && s.nTodo == 0 && s.fAllOk && forall t :: 0 <= t < |s.locals| ==> !s.locals[t].Working?
  }

  /** Whenever no controller holds the queue, it is as good as new exactly if all that the last
      controller added after its last Wait has been evaluated to true already, and no trace is
      left exactly if that controller added nothing. */
  lemma QueueIsFinished(run: seq<State>, nBatchSize: nat)
    requires IsRun(run, nBatchSize) && !Last(run).held
    ensures var s := Last(run);
            && s.added == Own(s)
            && (Unused(s) <==> s.finished == multiset(s.added) && AllOk(s.added))
            && (Unused(s) && s.finished == multiset{} <==> s.added == [])
  {
    RunInv(run, nBatchSize);
    var s := Last(run);
    if Unused(s) {
      AllFinished(s);
      assert s.added == [] || s.added[0] in multiset(s.added);
    }
    if s.finished == multiset(s.added) && AllOk(s.added) {
      AllEvaluated(s);
    }
  }

  lemma AllEvaluated(s: State)
    requires Counts(s) && Verdicts(s) && s.finished == multiset(s.added) && AllOk(s.added)
    ensures Unused(s)
  {
    assert |multiset(s.added)| == |multiset(s.queue)| + |Batches(s.locals)| + |s.finished|;
    assert Batches(s.locals) == multiset{};
    forall t | 0 <= t < |s.locals| ensures !s.locals[t].Working? {
      BatchInBatches(s.locals, t);
      assert LocalOk(s.locals[t], s.added);
      assert |Batch(s.locals[t])| == Weight(InFlight, s.locals[t]);
    }
    SumZero(InFlight, s.locals);
  }

  /** A verdict is about the controller's own checks exactly unless these are all good while
      something it inherited is bad. */
  lemma VerdictIsOwn(run: seq<State>, nBatchSize: nat, i: nat)
    requires IsRun(run, nBatchSize) && i < |Last(run).rounds|
    ensures var r := Last(run).rounds[i];
            (r.result <==> AllOk(r.own)) <==> (AllOk(r.own) ==> AllOk(r.inherited))
  {
    RunInv(run, nBatchSize);
  }

  /** No controller leaves checks behind that it added after its last Wait. */
  predicate NothingLeft(run: seq<State>) {
    forall k :: 0 <= k < |run| && !run[k].held ==> run[k].added == []
  }

  /** If so, nobody inherits anything and every verdict is about the controller's own checks. */
  lemma {:induction false} NothingLeaks(run: seq<State>, nBatchSize: nat)
    requires IsRun(run, nBatchSize) && NothingLeft(run)
    ensures var s := Last(run);
            s.inherited == [] && forall r :: r in s.rounds ==> r.inherited == [] && (r.result <==> AllOk(r.own))
  {
    hide Next, Counts, Verdicts, NoLostWakeup, Handover, Awake;
    RunInv(run, nBatchSize);
    if |run| > 1 {
      var before := run[..|run| - 1];
      NothingLeaks(before, nBatchSize);
      NobodyInherits(Last(before), Last(run), nBatchSize);
    }
  }

  lemma NobodyInherits(s: State, s': State, nBatchSize: nat)
    requires Next(s, s', nBatchSize) && (!s.held ==> s.added == [])
    requires s.inherited == [] && forall r :: r in s.rounds ==> r.inherited == []
    ensures s'.inherited == [] && forall r :: r in s'.rounds ==> r.inherited == []
  {
    hide Clean, Own, Takes, BatchSize;
    if t :| Turn(s, s', t, nBatchSize) {
      CleanHistory(s, t);
      var s1 := Clean(s, t);
      if Takes(s1, s', t, BatchSize(|s1.queue|, nBatchSize, s1.nTotal, s1.nIdle)) {
        TakeHistory(s1, s', t, BatchSize(|s1.queue|, nBatchSize, s1.nTotal, s1.nIdle));
      }
    }
  }

  lemma CleanHistory(s: State, t: nat)
    requires MayTurn(s, t)
    ensures Clean(s, t).inherited == s.inherited && Clean(s, t).rounds == s.rounds
  {
  }

  lemma TakeHistory(s1: State, s': State, t: nat, n: nat)
    requires Takes(s1, s', t, n)
    ensures s'.inherited == s1.inherited && s'.rounds == s1.rounds
  {
  }

  /** A controller that adds checks after its Wait returned leaks them: the next controller,
      which adds nothing, gets false. */
  lemma LateAddLeaks(bad: Check) returns (run: seq<State>)
    requires !bad.ok
    ensures IsRun(run, 1) && |run| == 9
    ensures Release(run[3], run[4]) && Acquire(run[4], run[5])
    ensures run[5].rounds == [Round([], [], true)]
    ensures Turn(run[5], run[6], MASTER, 1) && Work(run[6], run[7], MASTER) && Turn(run[7], run[8], MASTER, 1)
    ensures run[8].rounds == [Round([], [], true), Round([bad], [], false)]
  {
    hide Turn, Work, Add;
    var s0 := State([], 0, 0, true, 0, [Outside], false, false, [], [], multiset{}, []);
    var s1 := s0.(held := true);
    var s2 := EmptyRound(s1);
    run := [s0];
    Extend(run, s1, 1); run := run + [s1];
    Extend(run, s2, 1); run := run + [s2];
    var s3, s4, s5 := LateAdd(s2, bad);
    Extend(run, s3, 1); run := run + [s3];
    Extend(run, s4, 1); run := run + [s4];
    Extend(run, s5, 1); run := run + [s5];
    var s6, s7, s8 := LeakedRound(s5, bad);
    Extend(run, s6, 1); run := run + [s6];
    Extend(run, s7, 1); run := run + [s7];
    Extend(run, s8, 1); run := run + [s8];
  }

  lemma EmptyRound(s1: State) returns (s2: State)
    requires s1.queue == [] && s1.nTodo == 0 && s1.nTotal == 0 && s1.fAllOk && s1.locals == [Outside] && s1.held
    requires s1.rounds == [] && s1.added == [] && s1.inherited == []
    ensures Turn(s1, s2, MASTER, 1)
    ensures s2 == s1.(fDone := true, finished := multiset{}, rounds := [Round([], [], true)])
  {
    s2 := s1.(fDone := true, finished := multiset{}, rounds := [Round([], [], true)]);
    TurnOfMaster(s1, s2);
  }

  lemma LateAdd(s2: State, bad: Check) returns (s3: State, s4: State, s5: State)
    requires s2.queue == [] && s2.nTodo == 0 && s2.locals == [Outside] && s2.held && s2.fDone && s2.added == []
    ensures Add(s2, s3, [bad]) && Release(s3, s4) && Acquire(s4, s5)
    ensures s5 == s2.(fDone := false, queue := [bad], nTodo := 1, added := [bad], inherited := [bad])
  {
    s3 := s2.(queue := [bad], nTodo := 1, added := [bad]);
    s4 := s3.(held := false);
    s5 := s4.(held := true, fDone := false, inherited := [bad]);
  }

  lemma LeakedRound(s5: State, bad: Check) returns (s6: State, s7: State, s8: State)
    requires s5.queue == [bad] && !bad.ok && s5.nTodo == 1 && s5.nTotal == 0 && s5.fAllOk && s5.added == [bad]
    requires s5.inherited == [bad] && s5.locals == [Outside] && s5.held
    ensures Turn(s5, s6, MASTER, 1) && Work(s6, s7, MASTER) && Turn(s7, s8, MASTER, 1)
    ensures s8.rounds == s5.rounds + [Round([bad], [], false)]
  {
    assert Reversed([bad]) == [bad];
    s6 := s5.(queue := [], nTotal := 1, locals := [Working([bad], 0, true)]);
    assert Takes(Clean(s5, MASTER), s6, MASTER, 1);
    TurnOfMaster(s5, s6);
    s7 := s6.(locals := [Working([bad], 1, false)]);
    s8 := s7.(nTotal := 0, nTodo := 0, fDone := true, locals := [Outside], added := [], inherited := [],
              finished := multiset{}, rounds := s7.rounds + [Round([bad], [], false)]);
    assert Returns(Clean(s7, MASTER), s8, MASTER);
    TurnOfMaster(s7, s8);
  }

  lemma TurnOfMaster(s: State, s': State)
    requires TurnTaking(s, s', MASTER, 1) && |Clean(s, MASTER).queue| <= 1
    ensures Turn(s, s', MASTER, 1)
  {
  }
}
