/** Threads between their atomic operations, and runs of a transition system. */
module Threads {

  /** The threads that are in a place of some kind. */
  function Where<P>(pc: seq<P>, kind: P -> bool): set<nat> {
    set i: nat | i < |pc| && kind(pc[i])
  }

  function One(b: bool): nat {
    if b then 1 else 0
  }

  lemma WhereSplit<P>(pc: seq<P>, kind: P -> bool, t: nat)
    requires t < |pc|
    ensures |Where(pc, kind)| == |Where(pc, kind) - {t}| + One(kind(pc[t]))
  {
    var w := Where(pc, kind);
    if t in w {
      assert w == (w - {t}) + {t};
    } else {
      assert w == w - {t};
    }
  }

  lemma OthersStay<P>(pc: seq<P>, kind: P -> bool, t: nat, p: P)
    requires t < |pc|
    ensures Where(pc[t := p], kind) - {t} == Where(pc, kind) - {t}
  {
    forall i: nat ensures i in Where(pc[t := p], kind) - {t} <==> i in Where(pc, kind) - {t} {
      if i < |pc| && i != t {
        assert pc[t := p][i] == pc[i];
      }
    }
  }

  /** How one thread's change of place changes the number of those in a kind of place. */
  lemma WhereUpdate<P>(pc: seq<P>, kind: P -> bool, t: nat, p: P)
    requires t < |pc|
    ensures |Where(pc[t := p], kind)| == |Where(pc, kind)| - One(kind(pc[t])) + One(kind(p))
  {
    WhereSplit(pc, kind, t);
    WhereSplit(pc[t := p], kind, t);
    OthersStay(pc, kind, t, p);
  }

  lemma OnlyOne<P>(pc: seq<P>, kind: P -> bool, i: nat, j: nat)
    requires |Where(pc, kind)| <= 1 && i in Where(pc, kind) && j in Where(pc, kind)
    ensures i == j
  {
    var w := Where(pc, kind);
    assert |w - {i}| == |w| - 1;
    assert w - {i} == {};
  }

  /** The states of a run under some interleaving: one more state than actions. */
  ghost predicate Run<S(!new), A(!new)>(states: seq<S>, acts: seq<A>, init: S -> bool, step: (S, A, S) -> bool) {
    && |states| == |acts| + 1 && init(states[0])
    && forall i | 0 <= i < |acts| :: step(states[i], acts[i], states[i + 1])
  }

  /** What holds at first and is kept by every step holds in every state of every run. */
  lemma {:induction false} Invariance<S(!new), A(!new)>(states: seq<S>, acts: seq<A>, init: S -> bool, step: (S, A, S) -> bool,
                                                        inv: S -> bool, k: nat)
    requires Run(states, acts, init, step) && k < |states|
    requires forall s | init(s) :: inv(s)
    requires forall s, a, s' | step(s, a, s') && inv(s) :: inv(s')
    ensures inv(states[k])
  {
    if k > 0 {
      Invariance(states, acts, init, step, inv, k - 1);
      assert step(states[k - 1], acts[k - 1], states[k]);
    }
  }
}
