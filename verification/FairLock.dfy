/** Starvation freedom of the filter lock of T3/pmutex.c: under every fair schedule that never ends, each thread that has
    called `lock` comes to hold it. */
module FairLock {
  import opened FilterLock

  // ---------------------------------------------------------------------------------------------------------
  // Infinite runs
  // ---------------------------------------------------------------------------------------------------------

  /** The state at time k of the run in which thread `who(i)` steps at time i; a number that names no thread is idle
      time. */
  ghost function At(s: State, who: nat -> nat, k: nat): State
    requires WellFormed(s)
    ensures WellFormed(At(s, who, k)) && At(s, who, k).owner == s.owner
  {
    if k == 0 then s else StepOrIdle(At(s, who, k - 1), who(k - 1))
  }

  ghost predicate StepsTo(tr: nat -> State, who: nat -> nat, k: nat) {
    WellFormed(tr(k)) && tr(k + 1) == StepOrIdle(tr(k), who(k))
  }

  /** A sequence of states in which each follows from the one before by the scheduled step is this run. */
  lemma {:induction false} RunIsUnique(tr: nat -> State, who: nat -> nat, k: nat)
    requires WellFormed(tr(0)) && forall j: nat :: StepsTo(tr, who, j)
    ensures At(tr(0), who, k) == tr(k)
  {
    if k > 0 {
      RunIsUnique(tr, who, k - 1);
      assert StepsTo(tr, who, k - 1);
    }
  }

  ghost function PcAt(s: State, who: nat -> nat, t: nat, k: nat): Pc
    requires WellFormed(s) && t < |s.pc|
  {
    At(s, who, k).pc[t]
  }

  /** A thread that is inside `lock`, or holds the lock, takes another step some time.  Nothing is asked of a thread
      outside: it may or may not call again. */
  ghost predicate Fair(s: State, who: nat -> nat)
    requires WellFormed(s)
  {
    forall t: nat, k: nat :: t < |s.pc| && PcAt(s, who, t, k) != Outside ==> StepsAfter(who, t, k)
  }

  ghost predicate StepsAfter(who: nat -> nat, t: nat, k: nat) {
    exists m: nat :: m >= k && who(m) == t
  }

  lemma {:induction false} AtInv(s: State, who: nat -> nat, k: nat)
    requires Inv(s)
    ensures Inv(At(s, who, k))
  {
    if k > 0 {
      AtInv(s, who, k - 1);
      if who(k - 1) < |s.pc| {
        StepKeepsInv(At(s, who, k - 1), who(k - 1));
      }
    }
  }

  /** The next step of a thread. */
  lemma FirstStep(who: nat -> nat, t: nat, k: nat) returns (m: nat)
    requires StepsAfter(who, t, k)
    ensures m >= k && who(m) == t && NotMoved(who, t, k, m)
  {
    var last: nat :| last >= k && who(last) == t;
    m := k;
    while who(m) != t
      invariant k <= m <= last && NotMoved(who, t, k, m)
      decreases last - m
    {
      m := m + 1;
    }
  }

  lemma NextTurn(s: State, who: nat -> nat, t: nat, k: nat) returns (m: nat)
    requires WellFormed(s) && Fair(s, who) && t < |s.pc| && PcAt(s, who, t, k) != Outside
    ensures m >= k && who(m) == t && NotMoved(who, t, k, m)
  {
    assert StepsAfter(who, t, k);
    m := FirstStep(who, t, k);
  }

  ghost predicate NotMoved(who: nat -> nat, t: nat, k: nat, m: nat) {
    forall i: nat :: k <= i < m ==> who(i) != t
  }

  lemma OthersKeepPc(s: State, t: nat, u: nat)
    requires WellFormed(s) && t < |s.pc| && u != t
    ensures StepOrIdle(s, u).pc[t] == s.pc[t]
  {
  }

  lemma {:induction false} PcStays(s: State, who: nat -> nat, t: nat, k: nat, m: nat)
    requires WellFormed(s) && t < |s.pc| && k <= m && NotMoved(who, t, k, m)
    ensures PcAt(s, who, t, m) == PcAt(s, who, t, k)
    decreases m
  {
    if k < m {
      PcStays(s, who, t, k, m - 1);
      OthersKeepPc(At(s, who, m - 1), t, who(m - 1));
    }
  }

  // ---------------------------------------------------------------------------------------------------------
  // A wait whose condition stays true ends
  // ---------------------------------------------------------------------------------------------------------

  predicate WaitsAt(p: Pc, i: nat) {
    Waiting(p) && p.i == i
  }

  /** Steps of others do not take a waiting thread back. */
  lemma OtherStep(s: State, t: nat, u: nat)
    requires WellFormed(s) && t < |s.pc| && Waiting(s.pc[t]) && u != t
    ensures var s' := StepOrIdle(s, u);
            && s'.pc[t] == s.pc[t] && SoloMeasure(s', t) <= SoloMeasure(s, t)
            && (s.slot[s.pc[t].i - 1] != s.owner[t] ==> s'.slot[s.pc[t].i - 1] != s.owner[t])
  {
    if u < |s.pc| {
      assert s.owner[u] != s.owner[t];
    }
  }

  lemma {:induction false} OtherSteps(s: State, who: nat -> nat, t: nat, k: nat, m: nat)
    requires WellFormed(s) && t < |s.pc| && k <= m && Waiting(PcAt(s, who, t, k))
    requires NotMoved(who, t, k, m)
    ensures PcAt(s, who, t, m) == PcAt(s, who, t, k) && SoloMeasure(At(s, who, m), t) <= SoloMeasure(At(s, who, k), t)
    decreases m
  {
    if k < m {
      OtherSteps(s, who, t, k, m - 1);
      OtherStep(At(s, who, m - 1), t, who(m - 1));
    }
  }

  /** A step of its own brings a thread that can leave closer to the end of the wait. */
  lemma OwnStep(s: State, t: nat)
    requires WellFormed(s) && t < |s.pc| && Waiting(s.pc[t]) && CanLeave(s, t)
    ensures var s' := Step(s, t); var i := s.pc[t].i;
            s'.pc[t] == EnterLevel(|s.pc|, i + 1)
            || (WaitsAt(s'.pc[t], i) && 0 <= SoloMeasure(s', t) < SoloMeasure(s, t))
  {
  }

  ghost predicate LeavableFrom(s: State, who: nat -> nat, t: nat, k: nat, i: nat)
    requires WellFormed(s) && t < |s.pc|
  {
    forall m: nat :: m >= k && WaitsAt(PcAt(s, who, t, m), i) ==> CanLeave(At(s, who, m), t)
  }

  /** At time m the thread has left level i, or is closer to leaving it than at time k. */
  ghost predicate Advances(s: State, who: nat -> nat, t: nat, i: nat, k: nat, m: nat)
    requires WellFormed(s) && t < |s.pc| && WaitsAt(PcAt(s, who, t, k), i)
  {
    PcAt(s, who, t, m) == EnterLevel(|s.pc|, i + 1)
    || (WaitsAt(PcAt(s, who, t, m), i) && 0 <= SoloMeasure(At(s, who, m), t) < SoloMeasure(At(s, who, k), t))
  }

  lemma WaitStep(s: State, who: nat -> nat, t: nat, k: nat, i: nat)
    requires WellFormed(s) && t < |s.pc| && who(k) == t && WaitsAt(PcAt(s, who, t, k), i) && CanLeave(At(s, who, k), t)
    ensures Advances(s, who, t, i, k, k + 1)
  {
    OwnStep(At(s, who, k), t);
  }

  lemma NextWaitTurn(s: State, who: nat -> nat, t: nat, k: nat, i: nat) returns (j: nat)
    requires WellFormed(s) && Fair(s, who) && t < |s.pc| && WaitsAt(PcAt(s, who, t, k), i)
    ensures j >= k && who(j) == t && WaitsAt(PcAt(s, who, t, j), i)
    ensures SoloMeasure(At(s, who, j), t) <= SoloMeasure(At(s, who, k), t)
  {
    j := NextTurn(s, who, t, k);
    OtherSteps(s, who, t, k, j);
  }

  lemma WaitTurn(s: State, who: nat -> nat, t: nat, k: nat, i: nat) returns (m: nat)
    requires WellFormed(s) && Fair(s, who) && t < |s.pc| && WaitsAt(PcAt(s, who, t, k), i)
    requires LeavableFrom(s, who, t, k, i)
    ensures m >= k
    ensures Advances(s, who, t, i, k, m)
  {
    var j := NextWaitTurn(s, who, t, k, i);
    WaitStep(s, who, t, j, i);
    m := j + 1;
  }

  lemma {:induction false} WaitEnds(s: State, who: nat -> nat, t: nat, k: nat, i: nat) returns (m: nat)
    requires WellFormed(s) && Fair(s, who) && t < |s.pc| && WaitsAt(PcAt(s, who, t, k), i)
    requires LeavableFrom(s, who, t, k, i)
    ensures m >= k && PcAt(s, who, t, m) == EnterLevel(|s.pc|, i + 1)
    decreases SoloMeasure(At(s, who, k), t)
  {
    m := WaitTurn(s, who, t, k, i);
    if WaitsAt(PcAt(s, who, t, m), i) {
      m := WaitEnds(s, who, t, m, i);
    }
  }

  // ---------------------------------------------------------------------------------------------------------
  // No wait lasts for ever
  // ---------------------------------------------------------------------------------------------------------

  ghost predicate Stuck(s: State, who: nat -> nat, t: nat, k: nat, i: nat)
    requires WellFormed(s) && t < |s.pc|
  {
    forall m: nat :: m >= k ==> WaitsAt(PcAt(s, who, t, m), i)
  }

  lemma {:induction false} NotSacrificedLater(s: State, who: nat -> nat, t: nat, k: nat, i: nat, m: nat)
    requires WellFormed(s) && t < |s.pc| && 1 <= i < |s.pc| && k <= m
    requires forall j: nat :: k <= j <= m ==> WaitsAt(PcAt(s, who, t, j), i)
    requires At(s, who, k).slot[i - 1] != s.owner[t]
    ensures At(s, who, m).slot[i - 1] != s.owner[t]
    decreases m
  {
    if k < m {
      NotSacrificedLater(s, who, t, k, i, m - 1);
      assert WaitsAt(PcAt(s, who, t, m - 1), i);
      if who(m - 1) != t {
        OtherStep(At(s, who, m - 1), t, who(m - 1));
      }
    }
  }

  /** A thread that waits at level i while its slot names somebody else leaves the level. */
  lemma NotSacrificedLeaves(s: State, who: nat -> nat, t: nat, k: nat, i: nat) returns (m: nat)
    requires WellFormed(s) && Fair(s, who) && t < |s.pc| && WaitsAt(PcAt(s, who, t, k), i)
    requires forall j: nat :: j >= k ==> At(s, who, j).slot[i - 1] != s.owner[t]
    ensures m >= k && PcAt(s, who, t, m) == EnterLevel(|s.pc|, i + 1)
  {
    m := WaitEnds(s, who, t, k, i);
  }

  /** ... and so one that never leaves owns the slot for ever. */
  lemma StuckOwnsSlot(s: State, who: nat -> nat, t: nat, k: nat, i: nat, m: nat)
    requires WellFormed(s) && Fair(s, who) && t < |s.pc| && Stuck(s, who, t, k, i) && 1 <= i < |s.pc| && m >= k
    ensures At(s, who, m).slot[i - 1] == s.owner[t]
  {
    if At(s, who, m).slot[i - 1] != s.owner[t] {
      forall j: nat | j >= m ensures At(s, who, j).slot[i - 1] != s.owner[t] {
        NotSacrificedLater(s, who, t, m, i, j);
      }
      var x := NotSacrificedLeaves(s, who, t, m, i);
    }
  }

  /** Nobody else comes to write the slot. */
  lemma NoWriter(s: State, who: nat -> nat, t: nat, k: nat, i: nat, u: nat, m: nat)
    requires WellFormed(s) && Fair(s, who) && t < |s.pc| && Stuck(s, who, t, k, i) && 1 <= i < |s.pc| && m >= k
    requires u < |s.pc| && u != t
    ensures PcAt(s, who, u, m) != StoreSlot(i)
  {
    if PcAt(s, who, u, m) == StoreSlot(i) {
      var j := NextTurn(s, who, u, m);
      PcStays(s, who, u, m, j);
      StuckOwnsSlot(s, who, t, k, i, j + 1);
    }
  }

  ghost predicate BelowAt(s: State, who: nat -> nat, u: nat, i: nat, m: nat)
    requires WellFormed(s) && u < |s.pc|
  {
    LevelAt(PcAt(s, who, u, m), |s.pc|) < i
  }

  /** A thread comes up to level i only by way of the slot. */
  lemma ComesUp(s: State, u: nat, v: nat, i: nat)
    requires WellFormed(s) && u < |s.pc| && LevelAt(s.pc[u], |s.pc|) < i
    requires StepOrIdle(s, v).pc[u] != StoreSlot(i)
    ensures LevelAt(StepOrIdle(s, v).pc[u], |s.pc|) < i
  {
  }

  /** And so whoever is below the level stays below it, ... */
  lemma {:induction false} StaysBelow(s: State, who: nat -> nat, t: nat, k: nat, i: nat, u: nat, m: nat, j: nat)
    requires WellFormed(s) && Fair(s, who) && t < |s.pc| && Stuck(s, who, t, k, i) && 1 <= i < |s.pc|
    requires u < |s.pc| && u != t && k <= m <= j && BelowAt(s, who, u, i, m)
    ensures BelowAt(s, who, u, i, j)
    decreases j
  {
    if m < j {
      StaysBelow(s, who, t, k, i, u, m, j - 1);
      NoWriter(s, who, t, k, i, u, j);
      ComesUp(At(s, who, j - 1), u, who(j - 1), i);
    }
  }

  predicate AtLevel(p: Pc, i: nat) {
    match p
    case StoreLevel(x) => x == i
    case StoreSlot(x) => x == i
    case Test(x, _) => x == i
    case Scan(x, _) => x == i
    case Outside => false
    case Holding => false
  }

  function Rank(p: Pc, n: nat): int {
    match p
    case StoreLevel(i) => i
    case StoreSlot(i) => i
    case Test(i, _) => i
    case Scan(i, _) => i
    case Outside => 0
    case Holding => n
  }

  /** ... and everybody else gets there: a thread on the level is not the one named by the slot and so leaves, a thread
      above gets the lock and gives it back. */
  lemma {:induction false} GoesBelow(s: State, who: nat -> nat, t: nat, k: nat, i: nat, u: nat) returns (m: nat)
    requires Inv(s) && Fair(s, who) && t < |s.pc| && Stuck(s, who, t, k, i) && 1 <= i < |s.pc|
    requires u < |s.pc| && u != t
    ensures m >= k && BelowAt(s, who, u, i, m)
    decreases |s.pc| - i, 1
  {
    m := k;
    if !BelowAt(s, who, u, i, k) {
      NoWriter(s, who, t, k, i, u, k);
      if WaitsAt(PcAt(s, who, u, k), i) {
        forall j: nat | j >= k ensures At(s, who, j).slot[i - 1] != s.owner[u] {
          StuckOwnsSlot(s, who, t, k, i, j);
        }
        m := NotSacrificedLeaves(s, who, u, k, i);
      }
      m := GetsIn(s, who, u, m);
      m := Unlocks(s, who, u, m);
    }
  }

  lemma Unlocks(s: State, who: nat -> nat, t: nat, k: nat) returns (m: nat)
    requires WellFormed(s) && Fair(s, who) && t < |s.pc| && PcAt(s, who, t, k) == Holding
    ensures m > k && PcAt(s, who, t, m) == Outside
  {
    var j := NextTurn(s, who, t, k);
    PcStays(s, who, t, k, j);
    m := j + 1;
  }

  lemma {:induction false} AllBelow(s: State, who: nat -> nat, t: nat, k: nat, i: nat, c: nat) returns (m: nat)
    requires Inv(s) && Fair(s, who) && t < |s.pc| && Stuck(s, who, t, k, i) && 1 <= i < |s.pc| && c <= |s.pc|
    ensures m >= k && forall u: nat :: u < c && u != t ==> BelowAt(s, who, u, i, m)
    decreases |s.pc| - i, 2, c
  {
    m := k;
    if c > 0 {
      var j := AllBelow(s, who, t, k, i, c - 1);
      m := j;
      if c - 1 != t {
        m := GoesBelow(s, who, t, j, i, c - 1);
        forall u: nat | u < c - 1 && u != t ensures BelowAt(s, who, u, i, m) {
          StaysBelow(s, who, t, k, i, u, j, m);
        }
      }
    }
  }

  /** A thread that never left a level would in the end wait there above all others, and would leave. */
  lemma {:induction false} StuckLeaves(s: State, who: nat -> nat, t: nat, k: nat, i: nat) returns (m: nat)
    requires Inv(s) && Fair(s, who) && t < |s.pc| && Stuck(s, who, t, k, i) && 1 <= i < |s.pc|
    ensures m >= k && PcAt(s, who, t, m) == EnterLevel(|s.pc|, i + 1)
    decreases |s.pc| - i, 3
  {
    var b := AllBelow(s, who, t, k, i, |s.pc|);
    forall j: nat | j >= b ensures WaitsAt(PcAt(s, who, t, j), i) && CanLeave(At(s, who, j), t) {
      assert WaitsAt(PcAt(s, who, t, j), i);
      forall r: nat | r < |s.pc| && r != t ensures At(s, who, j).level[r] < i {
        StaysBelow(s, who, t, k, i, r, b, j);
        AtInv(s, who, j);
      }
    }
    m := WaitEnds(s, who, t, b, i);
  }

  /** The two stores with which a thread comes to its wait. */
  lemma ReachWait(s: State, who: nat -> nat, t: nat, k: nat, i: nat) returns (m: nat)
    requires WellFormed(s) && Fair(s, who) && t < |s.pc| && AtLevel(PcAt(s, who, t, k), i)
    ensures m >= k && WaitsAt(PcAt(s, who, t, m), i)
  {
    m := k;
    if PcAt(s, who, t, m).StoreLevel? {
      m := Store(s, who, t, m);
    }
    if PcAt(s, who, t, m).StoreSlot? {
      m := Store(s, who, t, m);
    }
  }

  lemma Store(s: State, who: nat -> nat, t: nat, k: nat) returns (m: nat)
    requires WellFormed(s) && Fair(s, who) && t < |s.pc|
    requires PcAt(s, who, t, k).StoreLevel? || PcAt(s, who, t, k).StoreSlot?
    ensures m >= k
    ensures match PcAt(s, who, t, k)
            case StoreLevel(i) => PcAt(s, who, t, m) == StoreSlot(i)
            case StoreSlot(i) => PcAt(s, who, t, m) == Test(i, true)
            case _ => true
  {
    var j := NextTurn(s, who, t, k);
    PcStays(s, who, t, k, j);
    m := j + 1;
  }

  lemma {:induction false} WaitsUntilLeft(s: State, who: nat -> nat, t: nat, k: nat, i: nat, m: nat)
    requires WellFormed(s) && t < |s.pc| && WaitsAt(PcAt(s, who, t, k), i) && m >= k
    requires forall j: nat :: k <= j <= m ==> PcAt(s, who, t, j) != EnterLevel(|s.pc|, i + 1)
    ensures WaitsAt(PcAt(s, who, t, m), i)
    decreases m
  {
    if k < m {
      WaitsUntilLeft(s, who, t, k, i, m - 1);
      WaitsOrLeaves(At(s, who, m - 1), t, who(m - 1), i);
      assert PcAt(s, who, t, m) != EnterLevel(|s.pc|, i + 1);
    }
  }

  lemma WaitsOrLeaves(s: State, t: nat, u: nat, i: nat)
    requires WellFormed(s) && t < |s.pc| && WaitsAt(s.pc[t], i)
    ensures WaitsAt(StepOrIdle(s, u).pc[t], i) || StepOrIdle(s, u).pc[t] == EnterLevel(|s.pc|, i + 1)
  {
  }

  /** Every thread leaves every level. */
  lemma {:induction false} LevelIsLeft(s: State, who: nat -> nat, t: nat, k: nat, i: nat) returns (m: nat)
    requires Inv(s) && Fair(s, who) && t < |s.pc| && AtLevel(PcAt(s, who, t, k), i)
    ensures m >= k && PcAt(s, who, t, m) == EnterLevel(|s.pc|, i + 1)
    decreases |s.pc| - i, 4
  {
    var w := ReachWait(s, who, t, k, i);
    if j: nat :| j >= w && PcAt(s, who, t, j) == EnterLevel(|s.pc|, i + 1) {
      m := j;
    } else {
      forall j: nat | j >= w ensures WaitsAt(PcAt(s, who, t, j), i) {
        WaitsUntilLeft(s, who, t, w, i, j);
      }
      m := StuckLeaves(s, who, t, w, i);
    }
  }

  lemma {:induction false} GetsIn(s: State, who: nat -> nat, t: nat, k: nat) returns (m: nat)
    requires Inv(s) && Fair(s, who) && t < |s.pc| && PcAt(s, who, t, k) != Outside
    ensures m >= k && PcAt(s, who, t, m) == Holding
    decreases |s.pc| - Rank(PcAt(s, who, t, k), |s.pc|), 5
  {
    m := k;
    if PcAt(s, who, t, k) != Holding {
      var i := PcAt(s, who, t, k).i;
      m := LevelIsLeft(s, who, t, k, i);
      m := GetsIn(s, who, t, m);
    }
  }

  /** Starvation freedom: in every fair run, whatever the others do, each thread that has called `lock` comes to hold the
      lock. */
  lemma StarvationFreedom(s: State, who: nat -> nat, t: nat, k: nat)
    requires Initial(s) && Fair(s, who) && t < |s.pc| && PcAt(s, who, t, k) != Outside
    ensures exists m: nat :: m >= k && PcAt(s, who, t, m) == Holding
  {
    InitialInv(s);
    var m := GetsIn(s, who, t, k);
  }
}
