/** The mutex fast path by atomic decrement, increment and compare-exchange: any number of
    threads, one atomic operation per step, every interleaving.  The slow path is the same
    environment as for the exchange version, except that here unlock's fail_fn is itself
    the one that stores the 1. */
module MutexDec {
  import opened Threads

  /** Where a thread is between two of its atomic operations. */
  datatype Pc =
    | Idle
    | Owner                 // a lock call or trylock reported success
    | LockFail              // lost the exchange in lock; fail_fn is about to run
    | Sleeping              // in fail_fn, marked and waiting
    | Woken                 // in fail_fn, about to try again
    | Releasing             // the increment was not positive: still the holder, fail_fn is to store 1
    | UnlockFail            // released by fail_fn, which has a sleeper left to wake

  datatype State = State(count: int, pc: seq<Pc>)

  datatype Action =
    | Lock(t: nat)
    | Mark(t: nat, v: int)   // fail_fn of lock: exchange v, own if 1 came back
    | GiveUp(t: nat)         // an interruptible waiter leaves
    | Settle(t: nat, v: int) // the owner's slow path stores a value below 1
    | Unlock(t: nat)
    | Release(t: nat)        // fail_fn of unlock stores 1
    | Wake(t: nat, w: nat)   // and then wakes w, if w sleeps
    | Try(t: nat)

  predicate Init(s: State) {
    s.count == 1 && forall i | 0 <= i < |s.pc| :: s.pc[i] == Idle
  }

  predicate Asleep(s: State) {
    exists i | 0 <= i < |s.pc| :: s.pc[i] == Sleeping
  }

  /** The thread holds the lock: it owns it, or has not finished giving it up. */
  predicate Holds(p: Pc) {
    p == Owner || p == Releasing
  }

  predicate Enabled(s: State, a: Action) {
    a.t < |s.pc|
    && match a
       case Lock(t) => s.pc[t] == Idle
       case Mark(t, v) => (s.pc[t] == LockFail || s.pc[t] == Sleeping || s.pc[t] == Woken) && v < 1
       case GiveUp(t) => s.pc[t] == Sleeping
       case Settle(t, v) => s.pc[t] == Owner && v < 1
       case Unlock(t) => s.pc[t] == Owner
       case Wake(t, w) => s.pc[t] == UnlockFail && w < |s.pc|
       case Release(t) => s.pc[t] == Releasing
       case Try(t) => s.pc[t] == Idle
  }

  function Next(s: State, a: Action): State
    requires Enabled(s, a)
  {
    match a
    case Lock(t) => State(s.count - 1, s.pc[t := if s.count - 1 < 0 then LockFail else Owner])
    case Mark(t, v) => State(v, s.pc[t := if s.count == 1 then Owner else Sleeping])
    case GiveUp(t) => s.(pc := s.pc[t := Idle])
    case Settle(t, v) => s.(count := v)
    case Unlock(t) => State(s.count + 1, s.pc[t := if s.count + 1 <= 0 then Releasing else Idle])
    case Release(t) => State(1, s.pc[t := UnlockFail])
    case Wake(t, w) =>
      s.(pc := if s.pc[w] == Sleeping then s.pc[t := Idle][w := Woken] else s.pc[t := Idle])
    case Try(t) => if s.count == 1 then State(0, s.pc[t := Owner]) else s
  }

  /** A slow path that looks after its sleepers: it marks with a negative value, clears the
      mark only when nobody sleeps, and on release wakes a sleeper if there is one. */
  predicate Careful(s: State, a: Action) {
    match a
    case Mark(_, v) => v < 0
    case Settle(_, _) => !Asleep(s)
    case Wake(_, w) => Asleep(s) ==> w < |s.pc| && s.pc[w] == Sleeping
    case _ => true
  }

  /** One atomic step of some thread. */
  predicate Step(s: State, a: Action, s': State) {
    Enabled(s, a) && s' == Next(s, a)
  }

  // ---------------------------------------------------------- mutual exclusion

  function Owners(s: State): set<nat> {
    Where(s.pc, Holds)
  }

  /** Exactly one holder: a thread, or the free count 1. */
  ghost predicate Exclusive(s: State) {
    && s.count <= 1
    && |Owners(s)| + (if s.count == 1 then 1 else 0) == 1
  }

  lemma InitExclusive(s: State)
    requires Init(s)
    ensures Exclusive(s)
  {
    assert Owners(s) == {};
  }

  lemma StepExclusive(s: State, a: Action)
    requires Exclusive(s) && Enabled(s, a)
    ensures Exclusive(Next(s, a))
  {
    var s' := Next(s, a);
    if a.Wake? {
      assert Owners(s') == Owners(s);
    } else {
      WhereUpdate(s.pc, Holds, a.t, s'.pc[a.t]);
      assert s'.pc == s.pc[a.t := s'.pc[a.t]];
      assert Holds(s.pc[a.t]) ==> a.t in Owners(s);
    }
  }

  lemma RunExclusive(states: seq<State>, acts: seq<Action>, k: nat)
    requires Run(states, acts, Init, Step) && k < |states|
    ensures Exclusive(states[k])
  {
    forall s | Init(s) ensures Exclusive(s) {
      InitExclusive(s);
    }
    forall s, a, s' | Step(s, a, s') && Exclusive(s) ensures Exclusive(s') {
      StepExclusive(s, a);
    }
    Invariance(states, acts, Init, Step, Exclusive, k);
  }

  /** Mutual exclusion: two threads never both hold the lock, in any state of any run. */
  lemma MutualExclusion(states: seq<State>, acts: seq<Action>, k: nat, i: nat, j: nat)
    requires Run(states, acts, Init, Step) && k < |states|
    requires i < |states[k].pc| && j < |states[k].pc|
    requires Holds(states[k].pc[i]) && Holds(states[k].pc[j])
    ensures i == j && states[k].count < 1
  {
    RunExclusive(states, acts, k);
    OnlyOne(states[k].pc, Holds, i, j);
  }

  // -------------------------------------------------------- no lost wake-up

  /** Someone on the way to sleep or to wake another. */
  predicate Astir(p: Pc) {
    p == LockFail || p == Woken || p == Releasing || p == UnlockFail
  }

  /** A sleeper will be heard of: the count is marked, or a waker or another waiter is on its way. */
  predicate SleepersCovered(s: State) {
    Asleep(s) ==> s.count < 0 || exists i | 0 <= i < |s.pc| :: Astir(s.pc[i])
  }

  lemma StepSleepers(s: State, a: Action)
    requires Exclusive(s) && Enabled(s, a) && Careful(s, a) && SleepersCovered(s)
    ensures SleepersCovered(Next(s, a))
  {
    var s' := Next(s, a);
    if Asleep(s') && !a.Mark? {
      var w :| 0 <= w < |s'.pc| && s'.pc[w] == Sleeping;
      assert s.pc[w] == Sleeping;
      assert !a.Settle?;
      if a.Lock? && s.count < 1 {
      } else if a.Wake? {
        assert Astir(s'.pc[a.w]);
      } else if (a.Unlock? && s.count < 0) || a.Release? {
        assert Astir(s'.pc[a.t]);
      } else if s.count >= 0 {
        var i :| 0 <= i < |s.pc| && Astir(s.pc[i]);
        assert s'.pc[i] == s.pc[i];
      }
    }
  }

  predicate CarefulStep(s: State, a: Action, s': State) {
    Step(s, a, s') && Careful(s, a)
  }

  ghost predicate Covered(s: State) {
    Exclusive(s) && SleepersCovered(s)
  }

  /** No wake-up is lost: in every state of every careful run a sleeping waiter is covered. */
  lemma NoLostWakeup(states: seq<State>, acts: seq<Action>, k: nat)
    requires Run(states, acts, Init, Step) && k < |states|
    requires forall i | 0 <= i < k :: Careful(states[i], acts[i])
    ensures SleepersCovered(states[k])
  {
    forall s | Init(s) ensures Covered(s) {
      InitExclusive(s);
    }
    forall s, a, s' | CarefulStep(s, a, s') && Covered(s) ensures Covered(s') {
      StepExclusive(s, a);
      StepSleepers(s, a);
    }
    assert Run(states[..k + 1], acts[..k], Init, CarefulStep);
    Invariance(states[..k + 1], acts[..k], Init, CarefulStep, Covered, k);
  }

  // ------------------------------------------------------ losers and the slow path

  /** In lock's fail_fn, or bound for it. */
  predicate InSlowPath(p: Pc) {
    p == LockFail || p == Sleeping || p == Woken
  }

  /** A lock call gets the lock if the count was 1, and is otherwise bound for fail_fn. */
  lemma LockOutcome(s: State, t: nat)
    requires Exclusive(s) && Enabled(s, Lock(t))
    ensures var p := Next(s, Lock(t)).pc[t];
            && (p == Owner <==> s.count == 1) && (p == LockFail <==> s.count < 1)
            && Next(s, Lock(t)).count < 1
  {
  }

  /** Once bound for the slow path, a thread stays there until it owns the lock or gives up. */
  lemma {:induction false} LoserStays(states: seq<State>, acts: seq<Action>, j: nat, k: nat, t: nat)
    requires Run(states, acts, Init, Step) && j <= k < |states|
    requires t < |states[j].pc| && InSlowPath(states[j].pc[t])
    requires forall i | j <= i < k :: acts[i] != GiveUp(t)
    requires forall i | j < i <= k && t < |states[i].pc| :: states[i].pc[t] != Owner
    ensures t < |states[k].pc| && InSlowPath(states[k].pc[t])
  {
    if j < k {
      LoserStays(states, acts, j, k - 1, t);
      assert Step(states[k - 1], acts[k - 1], states[k]);
    }
  }

  /** An unlock that finds waiters keeps the lock until fail_fn stores the 1. */
  lemma UnlockOutcome(s: State, t: nat)
    requires Exclusive(s) && Enabled(s, Unlock(t))
    ensures var s' := Next(s, Unlock(t));
            && s'.count == s.count + 1
            && (s'.pc[t] == Releasing <==> s.count < 0) && (s'.pc[t] == Idle <==> s.count == 0 && s'.count == 1)
  {
    assert t in Owners(s);
  }

  lemma ReleaseOutcome(s: State, t: nat)
    requires Exclusive(s) && Enabled(s, Release(t))
    ensures Next(s, Release(t)).count == 1 && Next(s, Release(t)).pc[t] == UnlockFail
  {
  }

  /** A trylock takes the lock exactly if it is free, and otherwise changes nothing. */
  lemma TryOutcome(s: State, t: nat)
    requires Exclusive(s) && Enabled(s, Try(t))
    ensures var s' := Next(s, Try(t));
            if s.count == 1 then s'.count == 0 && s'.pc[t] == Owner else s' == s
  {
  }

  /** A run in which a waiter goes to sleep, is woken and gets the lock. */
  const RUN_ACTS: seq<Action> := [Lock(0), Lock(1), Mark(1, -1), Unlock(0), Release(0), Wake(0, 1), Mark(1, -1)]

  const RUN_STATES: seq<State> :=
    [State(1, [Idle, Idle]), State(0, [Owner, Idle]), State(-1, [Owner, LockFail]), State(-1, [Owner, Sleeping]),
     State(0, [Releasing, Sleeping]), State(1, [UnlockFail, Sleeping]), State(1, [Idle, Woken]), State(-1, [Idle, Owner])]

  lemma SomeoneSleeps()
    ensures Run(RUN_STATES, RUN_ACTS, Init, Step)
    ensures forall i | 0 <= i < |RUN_ACTS| :: Careful(RUN_STATES[i], RUN_ACTS[i])
    ensures Asleep(RUN_STATES[3]) && RUN_STATES[7].pc[1] == Owner
  {
    assert RUN_STATES[3].pc[1] == Sleeping && RUN_STATES[5].pc[1] == Sleeping;
    forall i | 0 <= i < |RUN_ACTS|
      ensures Step(RUN_STATES[i], RUN_ACTS[i], RUN_STATES[i + 1]) && Careful(RUN_STATES[i], RUN_ACTS[i])
    {
    }
  }
}
