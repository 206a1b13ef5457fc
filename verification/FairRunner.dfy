/** Every fair run of the program of T3/thread_runner.c ends: all threads exit, whatever the order of their steps. */
module FairRunner {
  import opened FilterLock
  import opened FairLock
  import opened ThreadRunner

  // ---------------------------------------------------------------------------------------------------------
  // Infinite runs
  // ---------------------------------------------------------------------------------------------------------

  ghost function Prefix(who: nat -> nat, k: nat): seq<nat> {
    if k == 0 then [] else Prefix(who, k - 1) + [who(k - 1)]
  }

  /** The states of the run in which thread `who(i)` steps at time i. */
  ghost function Behaviour(p: Prog, who: nat -> nat): nat -> Prog
    requires WellFormedProg(p)
  {
    (k: nat) => ProgRun(p, Prefix(who, k))
  }

  ghost predicate Next(tr: nat -> Prog, who: nat -> nat, k: nat) {
    && ProgInv(tr(k)) && |tr(k).phase| == |tr(0).phase|
    && tr(k + 1) == ProgStepOrIdle(tr(k), who(k))
  }

  ghost predicate IsRun(tr: nat -> Prog, who: nat -> nat) {
    forall k: nat :: Next(tr, who, k)
  }

  lemma InvAt(tr: nat -> Prog, who: nat -> nat, k: nat)
    requires IsRun(tr, who)
    ensures ProgInv(tr(k)) && |tr(k).phase| == |tr(0).phase|
  {
    assert Next(tr, who, k);
  }

  ghost predicate Active(s: Prog, t: nat) {
    t < |s.phase| && s.phase[t] != Exited
  }

  /** Every thread that has not exited takes another step some time. */
  ghost predicate FairRun(tr: nat -> Prog, who: nat -> nat) {
    forall t: nat, k: nat :: Active(tr(k), t) ==> StepsAfter(who, t, k)
  }

  lemma ProgRunLast(p: Prog, before: seq<nat>, t: nat)
    requires WellFormedProg(p)
    ensures ProgRun(p, before + [t]) == ProgStepOrIdle(ProgRun(p, before), t)
  {
    ProgRunAppend(p, before, [t]);
    assert [t] + [] == [t];
    ProgRunFirst(ProgRun(p, before), t, []);
  }

  lemma BehaviourIsRun(p: Prog, who: nat -> nat)
    requires ProgInv(p)
    ensures IsRun(Behaviour(p, who), who)
  {
    forall k: nat ensures Next(Behaviour(p, who), who, k) {
      ProgRunKeepsInv(p, Prefix(who, k));
      ProgRunLast(p, Prefix(who, k), who(k));
    }
  }

  ghost predicate TakesTurns(who: nat -> nat, n: nat) {
    who(0) < n && forall k: nat :: who(k + 1) == Successor(who(k), n)
  }

  function Successor(t: nat, n: nat): nat {
    if t + 1 < n then t + 1 else 0
  }

  /** Taking turns is fair. */
  lemma RoundRobinIsFair(p: Prog, who: nat -> nat)
    requires WellFormedProg(p) && TakesTurns(who, |p.phase|)
    ensures FairRun(Behaviour(p, who), who)
  {
    forall t: nat, k: nat | Active(Behaviour(p, who)(k), t) ensures StepsAfter(who, t, k) {
      InRange(who, |p.phase|, k);
      var m := TurnComes(who, |p.phase|, t, k);
      assert who(m) == t;
    }
  }

  lemma {:induction false} InRange(who: nat -> nat, n: nat, k: nat)
    requires TakesTurns(who, n)
    ensures who(k) < n
  {
    if k > 0 {
      InRange(who, n, k - 1);
      assert who(k - 1 + 1) == Successor(who(k - 1), n);
    }
  }

  lemma {:induction false} TurnComes(who: nat -> nat, n: nat, t: nat, k: nat) returns (m: nat)
    requires TakesTurns(who, n) && t < n && who(k) < n
    ensures m >= k && who(m) == t
    decreases if who(k) <= t then t - who(k) else t + n - who(k)
  {
    m := k;
    if who(k) != t {
      assert who(k + 1) == Successor(who(k), n);
      m := TurnComes(who, n, t, k + 1);
    }
  }

  // ---------------------------------------------------------------------------------------------------------
  // The run of the lock inside a run of the program
  // ---------------------------------------------------------------------------------------------------------

  /** The step of thread t is a step of the lock. */
  ghost predicate MovesLock(s: Prog, t: nat) {
    t < |s.phase| && t < |s.lock.pc| &&
    if s.lock.pc[t] == Holding then s.phase[t] == Release || s.phase[t] == Finish else s.phase[t] != Exited
  }

  ghost function LockWho(tr: nat -> Prog, who: nat -> nat): nat -> nat {
    (k: nat) => if MovesLock(tr(k), who(k)) then who(k) else |tr(k).phase|
  }

  lemma LockStep(s: Prog, t: nat)
    requires WellFormedProg(s)
    ensures ProgStepOrIdle(s, t).lock == StepOrIdle(s.lock, if MovesLock(s, t) then t else |s.phase|)
  {
  }

  ghost function LockStates(tr: nat -> Prog): nat -> State {
    (k: nat) => tr(k).lock
  }

  lemma LockNext(tr: nat -> Prog, who: nat -> nat, k: nat)
    requires IsRun(tr, who)
    ensures StepsTo(LockStates(tr), LockWho(tr, who), k)
  {
    assert Next(tr, who, k);
    LockStep(tr(k), who(k));
  }

  lemma LockAt(tr: nat -> Prog, who: nat -> nat, k: nat)
    requires IsRun(tr, who) && WellFormed(tr(0).lock)
    ensures At(tr(0).lock, LockWho(tr, who), k) == tr(k).lock
  {
    var states := LockStates(tr);
    forall j: nat ensures StepsTo(states, LockWho(tr, who), j) {
      LockNext(tr, who, j);
    }
    RunIsUnique(states, LockWho(tr, who), k);
  }

  ghost predicate SameThread(a: Prog, b: Prog, t: nat) {
    && |a.phase| == |b.phase| == |a.lock.pc| == |b.lock.pc| && t < |a.phase|
    && a.lock.pc[t] == b.lock.pc[t] && a.phase[t] == b.phase[t]
  }

  lemma OthersKeepThread(s: Prog, t: nat, u: nat)
    requires WellFormedProg(s) && t < |s.phase| && u != t
    ensures SameThread(s, ProgStepOrIdle(s, u), t)
  {
  }

  lemma {:induction false} ThreadStays(tr: nat -> Prog, who: nat -> nat, t: nat, k: nat, m: nat)
    requires IsRun(tr, who) && t < |tr(0).phase| && k <= m && NotMoved(who, t, k, m)
    ensures SameThread(tr(k), tr(m), t)
    decreases m
  {
    InvAt(tr, who, k);
    if k < m {
      ThreadStays(tr, who, t, k, m - 1);
      assert Next(tr, who, m - 1);
      OthersKeepThread(tr(m - 1), t, who(m - 1));
    }
  }

  /** The next step of a thread that has not exited. */
  lemma ThreadTurn(tr: nat -> Prog, who: nat -> nat, t: nat, k: nat) returns (m: nat)
    requires IsRun(tr, who) && FairRun(tr, who) && t < |tr(0).phase| && Active(tr(k), t)
    ensures m >= k && who(m) == t && SameThread(tr(k), tr(m), t)
  {
    m := FirstStep(who, t, k);
    ThreadStays(tr, who, t, k, m);
  }

  /** Inside the critical section a thread goes on towards unlock. */
  lemma HolderStep(s: Prog, t: nat)
    requires ProgInv(s) && t < |s.phase| && s.lock.pc[t] == Holding && !MovesLock(s, t)
    ensures var s' := ProgStep(s, t);
            && |s'.phase| == |s.phase| && s'.lock == s.lock && StepsLeft(s'.phase[t]) < StepsLeft(s.phase[t])
            && Visits(s') == Visits(s) - (if s.phase[t].Bump? then 1 else 0)
            && s'.phase[t] != Exited && (s'.phase[t] == Release ==> s.phase[t].Bump?)
  {
    var s' := ProgStep(s, t);
    assert PhaseFits(s, s.phase[t]);
    LiveUpdate(s.phase, t, s'.phase[t]);
    assert s'.phase == s.phase[t := s'.phase[t]];
  }

  lemma InsideIsActive(s: Prog, t: nat)
    requires ProgInv(s) && t < |s.phase| && s.lock.pc[t] != Outside
    ensures Active(s, t)
  {
    if s.lock.pc[t] == Holding {
      assert PhaseFits(s, s.phase[t]);
    }
  }

  ghost predicate Inside(s: Prog, t: nat) {
    ProgInv(s) && t < |s.phase| && s.lock.pc[t] != Outside
  }

  lemma HolderTurn(tr: nat -> Prog, who: nat -> nat, t: nat, k: nat)
    requires IsRun(tr, who) && who(k) == t && Inside(tr(k), t) && !MovesLock(tr(k), t)
    ensures Inside(tr(k + 1), t) && StepsLeft(tr(k + 1).phase[t]) < StepsLeft(tr(k).phase[t])
  {
    InsideIsActive(tr(k), t);
    HolderStep(tr(k), t);
    assert Next(tr, who, k);
    InvAt(tr, who, k + 1);
  }

  /** A thread inside `lock`, or inside the critical section, makes a step of the lock some time. */
  lemma {:induction false} LockTurn(tr: nat -> Prog, who: nat -> nat, t: nat, k: nat) returns (m: nat)
    requires IsRun(tr, who) && FairRun(tr, who) && t < |tr(0).phase| && Inside(tr(k), t)
    ensures m >= k && who(m) == t && MovesLock(tr(m), t)
    decreases StepsLeft(tr(k).phase[t])
  {
    InsideIsActive(tr(k), t);
    m := ThreadTurn(tr, who, t, k);
    InvAt(tr, who, m);
    if !MovesLock(tr(m), t) {
      HolderTurn(tr, who, t, m);
      m := LockTurn(tr, who, t, m + 1);
    }
  }

  /** In a fair run of the program the lock is used fairly. */
  lemma LockIsFair(tr: nat -> Prog, who: nat -> nat)
    requires IsRun(tr, who) && FairRun(tr, who) && WellFormed(tr(0).lock)
    ensures Fair(tr(0).lock, LockWho(tr, who))
  {
    var s, lw := tr(0).lock, LockWho(tr, who);
    forall t: nat, k: nat | t < |s.pc| && PcAt(s, lw, t, k) != Outside ensures StepsAfter(lw, t, k) {
      LockAt(tr, who, k);
      InvAt(tr, who, 0);
      InvAt(tr, who, k);
      var m := LockTurn(tr, who, t, k);
      assert lw(m) == t;
    }
  }

  // ---------------------------------------------------------------------------------------------------------
  // Every visit ends
  // ---------------------------------------------------------------------------------------------------------

  /** A step never adds to the visits that are still to come. */
  lemma VisitsFall(s: Prog, t: nat)
    requires ProgInv(s)
    ensures Visits(ProgStepOrIdle(s, t)) <= Visits(s)
  {
    if t < |s.phase| && s.lock.pc[t] == Holding {
      var s' := ProgStep(s, t);
      assert PhaseFits(s, s.phase[t]);
      LiveUpdate(s.phase, t, s'.phase[t]);
      assert s'.phase == s.phase[t := s'.phase[t]];
    }
  }

  lemma {:induction false} VisitsStayBelow(tr: nat -> Prog, who: nat -> nat, k: nat, m: nat)
    requires IsRun(tr, who) && k <= m
    ensures Visits(tr(m)) <= Visits(tr(k))
    decreases m
  {
    if k < m {
      VisitsStayBelow(tr, who, k, m - 1);
      assert Next(tr, who, m - 1);
      VisitsFall(tr(m - 1), who(m - 1));
    }
  }

  /** The thread is about to do something with the buffer, or to exit. */
  ghost predicate Visiting(s: Prog, t: nat) {
    ProgInv(s) && t < |s.phase| && s.lock.pc[t] == Holding && s.phase[t] != Release
  }

  ghost predicate Finishing(s: Prog, t: nat) {
    Visiting(s, t) && s.phase[t] == Finish
  }

  lemma FinishStep(s: Prog, t: nat)
    requires Finishing(s, t)
    ensures Visits(ProgStepOrIdle(s, t)) < Visits(s)
  {
    LiveUpdate(s.phase, t, Exited);
  }

  lemma VisitTurn(tr: nat -> Prog, who: nat -> nat, t: nat, k: nat)
    requires IsRun(tr, who) && who(k) == t && Visiting(tr(k), t)
    ensures Visits(tr(k + 1)) < Visits(tr(k))
            || (Visiting(tr(k + 1), t) && StepsLeft(tr(k + 1).phase[t]) < StepsLeft(tr(k).phase[t]))
  {
    assert Next(tr, who, k);
    InvAt(tr, who, k + 1);
    if tr(k).phase[t] == Finish {
      FinishStep(tr(k), t);
    } else {
      InsideIsActive(tr(k), t);
      HolderStep(tr(k), t);
    }
  }

  /** A visit ends with the pointer moved or the thread gone. */
  lemma {:induction false} VisitCounts(tr: nat -> Prog, who: nat -> nat, t: nat, k: nat) returns (m: nat)
    requires IsRun(tr, who) && FairRun(tr, who) && t < |tr(0).phase| && Visiting(tr(k), t)
    ensures m >= k && Visits(tr(m)) < Visits(tr(k))
    decreases StepsLeft(tr(k).phase[t])
  {
    InsideIsActive(tr(k), t);
    var j := ThreadTurn(tr, who, t, k);
    InvAt(tr, who, j);
    VisitTurn(tr, who, t, j);
    m := j + 1;
    VisitsStayBelow(tr, who, k, j);
    VisitsStayBelow(tr, who, k, m);
    if Visits(tr(m)) >= Visits(tr(j)) {
      m := VisitCounts(tr, who, t, m);
    }
  }

  // ---------------------------------------------------------------------------------------------------------
  // Every thread comes to visit
  // ---------------------------------------------------------------------------------------------------------

  ghost predicate Contending(s: Prog, t: nat) {
    ProgInv(s) && Active(s, t) && s.lock.pc[t] != Holding
  }

  /** Between visits a thread stays in front of its loop. */
  lemma ContendingStep(s: Prog, t: nat, u: nat)
    requires Contending(s, t)
    ensures var s' := ProgStepOrIdle(s, u); ProgInv(s') ==> Contending(s', t) || (Visiting(s', t))
  {
    assert s.phase[t] == Check;
    if u < |s.phase| && u != t {
      OthersKeepThread(s, t, u);
    }
  }

  lemma ContendingNext(tr: nat -> Prog, who: nat -> nat, t: nat, k: nat)
    requires IsRun(tr, who) && Contending(tr(k), t)
    ensures Contending(tr(k + 1), t) || Visiting(tr(k + 1), t)
  {
    assert Next(tr, who, k);
    InvAt(tr, who, k + 1);
    ContendingStep(tr(k), t, who(k));
  }

  /** The moment at which a thread gets the lock. */
  lemma {:induction false} Enters(tr: nat -> Prog, who: nat -> nat, t: nat, k: nat, h: nat) returns (m: nat)
    requires IsRun(tr, who) && t < |tr(0).phase| && Contending(tr(k), t)
    requires k <= h && |tr(h).lock.pc| == |tr(0).phase| && tr(h).lock.pc[t] == Holding
    ensures m >= k && Visiting(tr(m), t)
    decreases h - k
  {
    ContendingNext(tr, who, t, k);
    m := k + 1;
    if !Visiting(tr(m), t) {
      m := Enters(tr, who, t, m, h);
    }
  }

  /** A thread that is outside calls `lock`. */
  lemma Calls(tr: nat -> Prog, who: nat -> nat, t: nat, k: nat) returns (m: nat)
    requires IsRun(tr, who) && FairRun(tr, who) && t < |tr(0).phase| && Contending(tr(k), t)
    ensures m >= k && |tr(m).lock.pc| == |tr(0).phase| && tr(m).lock.pc[t] != Outside
  {
    m := k;
    if tr(k).lock.pc[t] == Outside {
      m := ThreadTurn(tr, who, t, k);
      assert Next(tr, who, m);
      InvAt(tr, who, m + 1);
      m := m + 1;
    }
    InvAt(tr, who, m);
  }

  lemma ComesToVisit(tr: nat -> Prog, who: nat -> nat, t: nat, k: nat) returns (m: nat)
    requires IsRun(tr, who) && FairRun(tr, who) && t < |tr(0).phase| && Contending(tr(k), t)
    ensures m >= k && Visiting(tr(m), t)
  {
    var j := Calls(tr, who, t, k);
    InvAt(tr, who, 0);
    LockIsFair(tr, who);
    LockAt(tr, who, j);
    var h := GetsIn(tr(0).lock, LockWho(tr, who), t, j);
    LockAt(tr, who, h);
    m := Enters(tr, who, t, k, h);
  }

  /** A thread that has just stored and still holds the lock gives it back. */
  lemma Releases(tr: nat -> Prog, who: nat -> nat, t: nat, k: nat) returns (m: nat)
    requires IsRun(tr, who) && FairRun(tr, who) && t < |tr(0).phase| && ProgInv(tr(k)) && Active(tr(k), t)
    requires tr(k).lock.pc[t] == Holding && tr(k).phase[t] == Release
    ensures m >= k && Contending(tr(m), t)
  {
    var j := ThreadTurn(tr, who, t, k);
    assert Next(tr, who, j);
    InvAt(tr, who, j + 1);
    m := j + 1;
  }

  lemma VisitsComeDown(tr: nat -> Prog, who: nat -> nat, t: nat, k: nat) returns (m: nat)
    requires IsRun(tr, who) && FairRun(tr, who) && t < |tr(0).phase| && Active(tr(k), t)
    ensures m >= k && Visits(tr(m)) < Visits(tr(k))
  {
    InvAt(tr, who, k);
    var j := k;
    if tr(k).lock.pc[t] == Holding && tr(k).phase[t] == Release {
      j := Releases(tr, who, t, k);
    }
    if !Visiting(tr(j), t) {
      j := ComesToVisit(tr, who, t, j);
    }
    VisitsStayBelow(tr, who, k, j);
    m := VisitCounts(tr, who, t, j);
  }

  lemma VisitsNatural(s: Prog)
    requires ProgInv(s)
    ensures Visits(s) >= 0
  {
  }

  lemma {:induction false} Ends(tr: nat -> Prog, who: nat -> nat, k: nat) returns (m: nat)
    requires IsRun(tr, who) && FairRun(tr, who)
    ensures m >= k && AllExited(tr(m))
    decreases Visits(tr(k))
  {
    m := k;
    if !AllExited(tr(k)) {
      InvAt(tr, who, k);
      var t: nat :| t < |tr(k).phase| && tr(k).phase[t] != Exited;
      m := VisitsComeDown(tr, who, t, k);
      InvAt(tr, who, m);
      VisitsNatural(tr(m));
      m := Ends(tr, who, m);
    }
  }

  /** Under every fair schedule the program ends: after finitely many steps all threads have exited. */
  lemma EveryFairRunEnds(p: Prog, who: nat -> nat)
    requires Started(p) && FairRun(Behaviour(p, who), who)
    ensures exists k: nat :: AllExited(ProgRun(p, Prefix(who, k)))
  {
    StartedInv(p);
    BehaviourIsRun(p, who);
    var k := Ends(Behaviour(p, who), who, 0);
    assert AllExited(ProgRun(p, Prefix(who, k)));
  }
}
