/** The exchange-based mutex fast path: any number of threads, one atomic exchange per
    step, every interleaving.  The slow path behind `fail_fn` is the environment the
    header describes: it exchanges values below 1 into the count, takes the lock only
    on reading 1 back, and, on the unlock side, wakes a sleeper if there is one. */
module MutexXchg {
  import opened Threads

  /** Where a thread is between two of its atomic operations. */
  datatype Pc =
    | Idle
    | Owner                 // a lock call or trylock reported success
    | LockFail              // lost the exchange in lock; fail_fn is about to run
    | Sleeping              // in fail_fn, marked and waiting
    | Woken                 // in fail_fn, about to try again
    | TryMid(prev: int)     // between the two exchanges of trylock
    | UnlockFail            // released; unlock's fail_fn is due

  datatype State = State(count: int, pc: seq<Pc>)

  datatype Action =
    | Lock(t: nat)
    | Mark(t: nat, v: int)   // fail_fn of lock: exchange v, own if 1 came back
    | GiveUp(t: nat)         // an interruptible waiter leaves
    | Settle(t: nat, v: int) // the owner's slow path stores a value below 1
    | Unlock(t: nat)
    | Wake(t: nat, w: nat)   // fail_fn of unlock wakes w, if w sleeps
    | Try1(t: nat)
    | Try2(t: nat)

  predicate Init(s: State) {
    s.count == 1 && forall i | 0 <= i < |s.pc| :: s.pc[i] == Idle
  }

  predicate Asleep(s: State) {
    exists i | 0 <= i < |s.pc| :: s.pc[i] == Sleeping
  }

  predicate Holds(p: Pc) {
    p == Owner
  }

  /** What trylock returns for a final `prev`. */
  function TryResult(prev: int): int {
    if prev < 0 then 0 else prev
  }

  predicate Enabled(s: State, a: Action) {
    a.t < |s.pc|
    && match a
       case Lock(t) => s.pc[t] == Idle
       case Mark(t, v) => (s.pc[t] == LockFail || s.pc[t] == Sleeping || s.pc[t] == Woken) && v < 1
       case GiveUp(t) => s.pc[t] == Sleeping
       case Settle(t, v) => s.pc[t] == Owner && v < 1
       case Unlock(t) => s.pc[t] == Owner
       case Wake(t, w) => s.pc[t] == UnlockFail && w < |s.pc|
       case Try1(t) => s.pc[t] == Idle
       case Try2(t) => s.pc[t].TryMid?
  }

  function Next(s: State, a: Action): State
    requires Enabled(s, a)
  {
    match a
    case Lock(t) => State(0, s.pc[t := if s.count != 1 then LockFail else Owner])
    case Mark(t, v) => State(v, s.pc[t := if s.count == 1 then Owner else Sleeping])
    case GiveUp(t) => s.(pc := s.pc[t := Idle])
    case Settle(t, v) => s.(count := v)
    case Unlock(t) => State(1, s.pc[t := if s.count != 0 then UnlockFail else Idle])
    case Wake(t, w) =>
      s.(pc := if s.pc[w] == Sleeping then s.pc[t := Idle][w := Woken] else s.pc[t := Idle])
    case Try1(t) =>
      State(0, s.pc[t := if s.count < 0 then TryMid(s.count)
                         else if TryResult(s.count) != 0 then Owner else Idle])
    case Try2(t) =>
      State(s.pc[t].prev, s.pc[t := if TryResult(s.count) != 0 then Owner else Idle])
  }

  /** A slow path that looks after its sleepers: it marks with a negative value, clears the
      mark only when nobody sleeps, and on release wakes a sleeper if there is one. */
  predicate Careful(s: State, a: Action) {
    match a
    case Mark(_, v) => v < 0
    case Settle(_, _) => !Asleep(s)
    case Wake(_, w) => Asleep(s) ==> w < |s.pc| && s.pc[w] == Sleeping
    case _ => true
  }

  /** One atomic step of some thread. */
  predicate Step(s: State, a: Action, s': State) {
    Enabled(s, a) && s' == Next(s, a)
  }

  // ---------------------------------------------------------- mutual exclusion

  function Owners(s: State): set<nat> {
    Where(s.pc, Holds)
  }

  /** Exactly one holder: a thread, or the free count 1. */
  ghost predicate Exclusive(s: State) {
    && s.count <= 1
    && |Owners(s)| + (if s.count == 1 then 1 else 0) == 1
    && forall i | 0 <= i < |s.pc| && s.pc[i].TryMid? :: s.pc[i].prev < 0
  }

  lemma InitExclusive(s: State)
    requires Init(s)
    ensures Exclusive(s)
  {
    assert Owners(s) == {};
  }

  lemma StepExclusive(s: State, a: Action)
    requires Exclusive(s) && Enabled(s, a)
    ensures Exclusive(Next(s, a))
  {
    var s' := Next(s, a);
    if a.Wake? {
      assert Owners(s') == Owners(s);
    } else {
      WhereUpdate(s.pc, Holds, a.t, s'.pc[a.t]);
      assert s'.pc == s.pc[a.t := s'.pc[a.t]];
      assert Holds(s.pc[a.t]) ==> a.t in Owners(s);
    }
  }

  lemma RunExclusive(states: seq<State>, acts: seq<Action>, k: nat)
    requires Run(states, acts, Init, Step) && k < |states|
    ensures Exclusive(states[k])
  {
    forall s | Init(s) ensures Exclusive(s) {
      InitExclusive(s);
    }
    forall s, a, s' | Step(s, a, s') && Exclusive(s) ensures Exclusive(s') {
      StepExclusive(s, a);
    }
    Invariance(states, acts, Init, Step, Exclusive, k);
  }

  /** Mutual exclusion: two threads never both hold the lock, in any state of any run. */
  lemma MutualExclusion(states: seq<State>, acts: seq<Action>, k: nat, i: nat, j: nat)
    requires Run(states, acts, Init, Step) && k < |states|
    requires i < |states[k].pc| && j < |states[k].pc|
    requires states[k].pc[i] == Owner && states[k].pc[j] == Owner
    ensures i == j && states[k].count < 1
  {
    RunExclusive(states, acts, k);
    OnlyOne(states[k].pc, Holds, i, j);
  }

  // ------------------------------------------------- contention is not forgotten

  /** Someone still knows that the lock is contended. */
  predicate Flagged(s: State) {
    || s.count < 0
    || exists i | 0 <= i < |s.pc| :: s.pc[i].TryMid? || s.pc[i] == LockFail
  }

  /** The events that settle contention: an unlock that will call fail_fn, or the owner's own store. */
  predicate Settles(s: State, a: Action) {
    (a.Unlock? && s.count != 0) || a.Settle?
  }

  lemma StepFlagged(s: State, a: Action)
    requires Exclusive(s) && Enabled(s, a) && Flagged(s) && !Settles(s, a)
    requires a.Mark? ==> a.v < 0
    ensures Flagged(Next(s, a))
  {
    var s' := Next(s, a);
    if s'.count >= 0 {
      if s.count < 0 {
        assert s'.pc[a.t].TryMid? || s'.pc[a.t] == LockFail;
      } else {
        var i :| 0 <= i < |s.pc| && (s.pc[i].TryMid? || s.pc[i] == LockFail);
        assert s'.pc[i] == s.pc[i];
      }
    }
  }

  /** Once the count has gone negative, in every later state up to a settling event
      the contention is visible: in the count, in a trylock carrying it, or in a locker
      about to enter fail_fn. */
  lemma {:induction false} ContentionRemembered(states: seq<State>, acts: seq<Action>, j: nat, k: nat)
    requires Run(states, acts, Init, Step) && j <= k < |states|
    requires states[j].count < 0
    requires forall i | j <= i < k :: !Settles(states[i], acts[i])
    requires forall i | j <= i < k && acts[i].Mark? :: acts[i].v < 0
    ensures Flagged(states[k])
  {
    if j < k {
      ContentionRemembered(states, acts, j, k - 1);
      RunExclusive(states, acts, k - 1);
      assert Step(states[k - 1], acts[k - 1], states[k]);
      StepFlagged(states[k - 1], acts[k - 1]);
    }
  }

  /** A sleeper will be heard of: contention is flagged, or a wake-up is under way. */
  predicate SleepersCovered(s: State) {
    Asleep(s) ==> Flagged(s) || exists i | 0 <= i < |s.pc| :: s.pc[i] == Woken || s.pc[i] == UnlockFail
  }

  lemma StepSleepers(s: State, a: Action)
    requires Exclusive(s) && Enabled(s, a) && Careful(s, a) && SleepersCovered(s)
    ensures SleepersCovered(Next(s, a))
  {
    var s' := Next(s, a);
    if Asleep(s') && !a.Mark? {
      var w :| 0 <= w < |s'.pc| && s'.pc[w] == Sleeping;
      assert s.pc[w] == Sleeping;
      assert !a.Settle?;
      if Flagged(s) && !Settles(s, a) {
        StepFlagged(s, a);
      } else if a.Unlock? && s.count != 0 {
        assert s'.pc[a.t] == UnlockFail;
      } else if a.Wake? {
        assert s'.pc[a.w] == Woken;
      } else {
        var i :| 0 <= i < |s.pc| && (s.pc[i] == Woken || s.pc[i] == UnlockFail);
        assert s'.pc[i] == s.pc[i];
      }
    }
  }

  predicate CarefulStep(s: State, a: Action, s': State) {
    Step(s, a, s') && Careful(s, a)
  }

  ghost predicate Covered(s: State) {
    Exclusive(s) && SleepersCovered(s)
  }

  /** No wake-up is lost: in every state of every careful run a sleeping waiter is covered. */
  lemma NoLostWakeup(states: seq<State>, acts: seq<Action>, k: nat)
    requires Run(states, acts, Init, Step) && k < |states|
    requires forall i | 0 <= i < k :: Careful(states[i], acts[i])
    ensures SleepersCovered(states[k])
  {
    forall s | Init(s) ensures Covered(s) {
      InitExclusive(s);
    }
    forall s, a, s' | CarefulStep(s, a, s') && Covered(s) ensures Covered(s') {
      StepExclusive(s, a);
      StepSleepers(s, a);
    }
    assert Run(states[..k + 1], acts[..k], Init, CarefulStep);
    Invariance(states[..k + 1], acts[..k], Init, CarefulStep, Covered, k);
  }

  // ------------------------------------------------------ losers and the slow path

  /** In lock's fail_fn, or bound for it. */
  predicate InSlowPath(p: Pc) {
    p == LockFail || p == Sleeping || p == Woken
  }

  /** A lock call gets the lock if the count was 1, and is otherwise bound for fail_fn. */
  lemma LockOutcome(s: State, t: nat)
    requires Exclusive(s) && Enabled(s, Lock(t))
    ensures var p := Next(s, Lock(t)).pc[t];
            && (p == Owner <==> s.count == 1) && (p == LockFail <==> s.count < 1)
            && Next(s, Lock(t)).count < 1
  {
  }

  /** Once bound for the slow path, a thread stays there until it owns the lock or gives up. */
  lemma {:induction false} LoserStays(states: seq<State>, acts: seq<Action>, j: nat, k: nat, t: nat)
    requires Run(states, acts, Init, Step) && j <= k < |states|
    requires t < |states[j].pc| && InSlowPath(states[j].pc[t])
    requires forall i | j <= i < k :: acts[i] != GiveUp(t)
    requires forall i | j < i <= k && t < |states[i].pc| :: states[i].pc[t] != Owner
    ensures t < |states[k].pc| && InSlowPath(states[k].pc[t])
  {
    if j < k {
      LoserStays(states, acts, j, k - 1, t);
      assert Step(states[k - 1], acts[k - 1], states[k]);
    }
  }

  /** An unlock calls its fail_fn exactly when it did not find 0, and frees the lock either way. */
  lemma UnlockOutcome(s: State, t: nat)
    requires Exclusive(s) && Enabled(s, Unlock(t))
    ensures var s' := Next(s, Unlock(t));
            && s'.count == 1 && (s'.pc[t] == UnlockFail <==> s.count < 0) && (s'.pc[t] == Idle <==> s.count == 0)
  {
    assert t in Owners(s);
  }

  /** A trylock succeeds exactly if one of its exchanges took the 1.  Undisturbed, it leaves a
      contended count as it was. */
  lemma TryOutcome(s: State, t: nat)
    requires Exclusive(s) && Enabled(s, Try1(t))
    ensures var m := Next(s, Try1(t));
            && m.count == 0
            && (m.pc[t] == Owner <==> s.count == 1) && (m.pc[t] == Idle <==> s.count == 0)
            && (s.count < 0 ==> Enabled(m, Try2(t)) && Next(m, Try2(t)) == s)
  {
    if s.count < 0 {
      assert s.pc[t := TryMid(s.count)][t := Idle] == s.pc;
    }
  }

  /** The second exchange, whatever happened since the first. */
  lemma TrySecond(s: State, t: nat)
    requires Exclusive(s) && Enabled(s, Try2(t))
    ensures var s' := Next(s, Try2(t));
            && s'.count < 0 && (s'.pc[t] == Owner <==> s.count == 1) && (s'.pc[t] == Idle <==> s.count < 1)
  {
  }

  /** A run in which a waiter goes to sleep, is woken and gets the lock. */
  const RUN_ACTS: seq<Action> := [Lock(0), Lock(1), Mark(1, -1), Unlock(0), Wake(0, 1), Mark(1, -1)]

  const RUN_STATES: seq<State> :=
    [State(1, [Idle, Idle]), State(0, [Owner, Idle]), State(0, [Owner, LockFail]), State(-1, [Owner, Sleeping]),
     State(1, [UnlockFail, Sleeping]), State(1, [Idle, Woken]), State(-1, [Idle, Owner])]

  lemma SomeoneSleeps()
    ensures Run(RUN_STATES, RUN_ACTS, Init, Step)
    ensures forall i | 0 <= i < |RUN_ACTS| :: Careful(RUN_STATES[i], RUN_ACTS[i])
    ensures Asleep(RUN_STATES[3]) && RUN_STATES[6].pc[1] == Owner
  {
    assert RUN_STATES[3].pc[1] == Sleeping && RUN_STATES[4].pc[1] == Sleeping;
    forall i | 0 <= i < |RUN_ACTS|
      ensures Step(RUN_STATES[i], RUN_ACTS[i], RUN_STATES[i + 1]) && Careful(RUN_STATES[i], RUN_ACTS[i])
    {
    }
  }
}
