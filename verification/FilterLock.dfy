/** The n-thread filter lock of T3/pmutex.c as a step system.

    Threads are numbered by the position of their node in the `pnode` list.  Every step makes at most one
    access to shared memory, so a schedule is an arbitrary interleaving of single reads and writes; in
    particular the scan over the other threads' levels is not atomic.  Memory is sequentially consistent and
    the list of registered threads does not change while the lock is in use.
 */
module FilterLock {

  /** The statement of `lock` or `unlock` that a thread executes next. */
  datatype Pc =
    | Outside                      // not between a call of lock and the level store of unlock
    | StoreLevel(i: nat)           // mypnode->level = i
    | StoreSlot(i: nat)            // holdlist->data = mypnode->owner
    | Test(i: nat, flg: bool)      // the condition of the inner while: reads the slot of level i
    | Scan(i: nat, j: nat)         // the scan for a thread at level i or above has come to node j
    | Holding                      // lock has returned, unlock has not stored level 0 yet

  /** `slot[i - 1]` is the sacrifice slot of level i: the list `onhold` is walked from its head for i = 1.
      The slots are allocated without being initialised, so nothing is known of their first content. */
  datatype State = State(owner: seq<int>, level: seq<nat>, slot: seq<int>, pc: seq<Pc>)

  predicate PcInRange(p: Pc, n: nat) {
    match p
    case Outside => true
    case StoreLevel(i) => 1 <= i < n
    case StoreSlot(i) => 1 <= i < n
    case Test(i, _) => 1 <= i < n
    case Scan(i, j) => 1 <= i < n && j <= n
    case Holding => true
  }

  predicate Distinct(s: seq<int>) {
    forall a, b :: 0 <= a < b < |s| ==> s[a] != s[b]
  }

  ghost predicate WellFormed(s: State) {
    && |s.owner| == |s.level| == |s.slot| == |s.pc|
    && Distinct(s.owner)
    && forall t :: 0 <= t < |s.pc| ==> PcInRange(s.pc[t], |s.pc|)
  }

  ghost predicate Initial(s: State) {
    && |s.owner| == |s.level| == |s.slot| == |s.pc|
    && Distinct(s.owner)
    && forall t :: 0 <= t < |s.pc| ==> s.pc[t] == Outside && s.level[t] == 0
  }

  /** The head of the outer loop: the next level, or the end of `lock`. */
  function EnterLevel(n: nat, i: nat): Pc {
    if i < n then StoreLevel(i) else Holding
  }

  /** One step of thread t.  A thread outside calls `lock`; a holder calls `unlock`. */
  function Step(s: State, t: nat): State
    requires |s.owner| == |s.level| == |s.slot| == |s.pc| && t < |s.pc|
    requires PcInRange(s.pc[t], |s.pc|)
  {
    var n := |s.pc|;
    match s.pc[t]
    case Outside => s.(pc := s.pc[t := EnterLevel(n, 1)])
    case StoreLevel(i) => s.(level := s.level[t := i], pc := s.pc[t := StoreSlot(i)])
    case StoreSlot(i) => s.(slot := s.slot[i - 1 := s.owner[t]], pc := s.pc[t := Test(i, true)])
    case Test(i, flg) =>
      if s.slot[i - 1] == s.owner[t] && flg then s.(pc := s.pc[t := Scan(i, 0)])
      else s.(pc := s.pc[t := EnterLevel(n, i + 1)])
    case Scan(i, j) =>
      if j == n then s.(pc := s.pc[t := Test(i, false)])
      else if s.owner[j] == s.owner[t] then s.(pc := s.pc[t := Scan(i, j + 1)])
      else if s.level[j] >= i then s.(pc := s.pc[t := Test(i, true)])
      else s.(pc := s.pc[t := Scan(i, j + 1)])
    case Holding => s.(level := s.level[t := 0], pc := s.pc[t := Outside])
  }

  /** The state after the threads named by `schedule` have taken their steps in that order; a number that
      names no thread is idle time. */
  ghost function Run(s: State, schedule: seq<nat>): State
    requires WellFormed(s)
    ensures WellFormed(Run(s, schedule)) && Run(s, schedule).owner == s.owner
    decreases |schedule|
  {
    if schedule == [] then s
    else Run(StepOrIdle(s, schedule[0]), schedule[1..])
  }

  ghost function StepOrIdle(s: State, t: nat): State
    requires WellFormed(s)
    ensures WellFormed(StepOrIdle(s, t)) && StepOrIdle(s, t).owner == s.owner
  {
    if t < |s.pc| then Step(s, t) else s
  }

  // ---------------------------------------------------------------------------------------------------------
  // The invariant
  // ---------------------------------------------------------------------------------------------------------

  /** The value thread-local progress forces on the thread's own level. */
  function LevelAt(p: Pc, n: nat): int {
    match p
    case Outside => 0
    case StoreLevel(i) => i - 1
    case StoreSlot(i) => i
    case Test(i, _) => i
    case Scan(i, _) => i
    case Holding => n - 1
  }

  /** In its current visit the thread has stored its owner into the slot of level j. */
  predicate Wrote(p: Pc, j: nat) {
    match p
    case Outside => false
    case StoreLevel(i) => j < i
    case StoreSlot(i) => j < i
    case Test(i, _) => j <= i
    case Scan(i, _) => j <= i
    case Holding => true
  }

  /** The thread has left the wait of level j. */
  predicate Passed(p: Pc, j: nat) {
    match p
    case Outside => false
    case StoreLevel(i) => j < i
    case StoreSlot(i) => j < i
    case Test(i, _) => j < i
    case Scan(i, _) => j < i
    case Holding => true
  }

  /** Having been the last to write slot j, a thread at p has seen thread r below level j since then. */
  predicate Cleared(p: Pc, j: nat, r: nat) {
    Passed(p, j) || p == Test(j, false) || (p.Scan? && p.i == j && r < p.j)
  }

  /** Level j is consistent: if anybody has written its slot, then the last writer is still there, and whoever
      that writer has seen below level j has not come up since. */
  ghost predicate LevelInv(s: State, j: nat)
    requires WellFormed(s) && 1 <= j < |s.pc|
  {
    && (forall r :: 0 <= r < |s.pc| && Wrote(s.pc[r], j) ==>
          exists q :: 0 <= q < |s.pc| && s.slot[j - 1] == s.owner[q] && Wrote(s.pc[q], j))
    && (forall q, r | 0 <= q < |s.pc| && 0 <= r < |s.pc| && q != r ::
          s.slot[j - 1] == s.owner[q] && Wrote(s.pc[q], j) && Cleared(s.pc[q], j, r) ==> !Wrote(s.pc[r], j))
  }

  ghost predicate Inv(s: State) {
    && WellFormed(s)
    && (forall t :: 0 <= t < |s.pc| ==> s.level[t] == LevelAt(s.pc[t], |s.pc|))
    && (forall j :: 1 <= j < |s.pc| ==> LevelInv(s, j))
  }

  lemma InitialInv(s: State)
    requires Initial(s)
    ensures Inv(s)
  {
  }

  lemma StepKeepsLevelInv(s: State, t: nat, j: nat)
    requires Inv(s) && t < |s.pc| && 1 <= j < |s.pc|
    ensures LevelInv(Step(s, t), j)
  {
    var s' := Step(s, t);
    forall r | 0 <= r < |s.pc| && Wrote(s'.pc[r], j)
      ensures exists q :: 0 <= q < |s.pc| && s'.slot[j - 1] == s.owner[q] && Wrote(s'.pc[q], j)
    {
      WriterStays(s, t, j, r);
    }
    forall q, r | 0 <= q < |s.pc| && 0 <= r < |s.pc| && q != r
                  && s'.slot[j - 1] == s.owner[q] && Wrote(s'.pc[q], j) && Cleared(s'.pc[q], j, r)
      ensures !Wrote(s'.pc[r], j)
    {
      ClearedStays(s, t, j, q, r);
    }
  }

  /** A step adds to the writers of a slot only by the store itself, and only unlock takes one away. */
  lemma WritersOfStep(s: State, t: nat, j: nat)
    requires WellFormed(s) && t < |s.pc| && 1 <= j < |s.pc| && s.pc[t] != StoreSlot(j)
    ensures var s' := Step(s, t);
            && s'.slot[j - 1] == s.slot[j - 1]
            && (forall r :: 0 <= r < |s.pc| && Wrote(s'.pc[r], j) ==> Wrote(s.pc[r], j))
            && (forall r :: 0 <= r < |s.pc| && Wrote(s.pc[r], j) && !Wrote(s'.pc[r], j) ==> r == t && s.pc[t] == Holding)
  {
  }

  /** The last writer of a slot leaves only after everybody else who has written it. */
  lemma WriterStays(s: State, t: nat, j: nat, r: nat)
    requires Inv(s) && t < |s.pc| && 1 <= j < |s.pc| && r < |s.pc| && Wrote(Step(s, t).pc[r], j)
    ensures var s' := Step(s, t);
            exists q :: 0 <= q < |s.pc| && s'.slot[j - 1] == s.owner[q] && Wrote(s'.pc[q], j)
  {
    if s.pc[t] == StoreSlot(j) {
      assert Step(s, t).slot[j - 1] == s.owner[t] && Wrote(Step(s, t).pc[t], j);
    } else {
      WritersOfStep(s, t, j);
      assert LevelInv(s, j);
      var q :| 0 <= q < |s.pc| && s.slot[j - 1] == s.owner[q] && Wrote(s.pc[q], j);
      assert s.pc[q] == Holding ==> Cleared(s.pc[q], j, r);
    }
  }

  /** The heart of the protocol: what the last writer of a slot has seen stays true, since a thread that comes
      up later writes the slot itself and so takes over the role of last writer. */
  lemma ClearedStays(s: State, t: nat, j: nat, q: nat, r: nat)
    requires Inv(s) && t < |s.pc| && 1 <= j < |s.pc| && q < |s.pc| && r < |s.pc| && q != r
    requires var s' := Step(s, t);
             s'.slot[j - 1] == s.owner[q] && Wrote(s'.pc[q], j) && Cleared(s'.pc[q], j, r)
    ensures !Wrote(Step(s, t).pc[r], j)
  {
    var s' := Step(s, t);
    assert LevelInv(s, j);
    assert s.owner[q] != s.owner[r];
    if s.pc[t] != StoreSlot(j) {
      assert s'.slot[j - 1] == s.slot[j - 1];
      assert Wrote(s.pc[q], j);
      if t == q {
        if !Cleared(s.pc[q], j, r) {
          assert s.pc[q].Scan? && s.pc[q].i == j;
          assert r == s.pc[q].j;
          assert s.level[r] < j;
        }
      } else {
        assert Cleared(s.pc[q], j, r);
      }
    }
  }

  lemma StepKeepsInv(s: State, t: nat)
    requires Inv(s) && t < |s.pc|
    ensures Inv(Step(s, t))
  {
    forall j | 1 <= j < |s.pc| ensures LevelInv(Step(s, t), j) {
      StepKeepsLevelInv(s, t, j);
    }
  }

  lemma {:induction false} RunKeepsInv(s: State, schedule: seq<nat>)
    requires Inv(s)
    ensures Inv(Run(s, schedule))
    decreases |schedule|
  {
    if schedule != [] {
      if schedule[0] < |s.pc| {
        StepKeepsInv(s, schedule[0]);
      }
      RunKeepsInv(StepOrIdle(s, schedule[0]), schedule[1..]);
    }
  }

  // ---------------------------------------------------------------------------------------------------------
  // Safety
  // ---------------------------------------------------------------------------------------------------------

  ghost function PassedSet(s: State, j: nat): set<nat> {
    set t: nat | t < |s.pc| && (j == 0 || Passed(s.pc[t], j))
  }

  ghost function WroteSet(s: State, j: nat): set<nat> {
    set t: nat | t < |s.pc| && Wrote(s.pc[t], j)
  }

  lemma {:induction false} RangeCard(n: nat, all: set<nat>)
    requires forall t: nat :: t in all <==> t < n
    ensures |all| == n
  {
    if n == 0 {
      assert all == {};
    } else {
      RangeCard(n - 1, all - {n - 1});
    }
  }

  lemma SubsetCard<T>(a: set<T>, b: set<T>)
    requires a <= b
    ensures |a| <= |b|
  {
    assert b == a + (b - a);
  }

  /** Each level holds one thread back: if two or more have written its slot, the last writer is waiting. */
  lemma OneIsHeldBack(s: State, j: nat)
    requires Inv(s) && 1 <= j < |s.pc|
    ensures |PassedSet(s, j)| <= 1 || |PassedSet(s, j)| < |PassedSet(s, j - 1)|
  {
    var passed, wrote, before := PassedSet(s, j), WroteSet(s, j), PassedSet(s, j - 1);
    assert passed <= wrote <= before;
    SubsetCard(wrote, before);
    if |passed| >= 2 {
      assert LevelInv(s, j);
      var x :| x in passed;
      var q: nat :| q < |s.pc| && s.slot[j - 1] == s.owner[q] && Wrote(s.pc[q], j);
      assert q in passed ==> passed <= {q} by {
        assert forall r :: Passed(s.pc[q], j) ==> Cleared(s.pc[q], j, r);
      }
      SubsetCard(passed, if q in passed then {q} else passed);
      assert passed <= wrote - {q};
      SubsetCard(passed, wrote - {q});
    }
  }

  /** Of n threads at most n - j are ever past the wait of level j. */
  lemma {:induction false} FilterBoundInv(s: State, j: nat)
    requires Inv(s) && j < |s.pc|
    ensures |PassedSet(s, j)| <= |s.pc| - j
  {
    if j == 0 {
      RangeCard(|s.pc|, PassedSet(s, 0));
    } else {
      FilterBoundInv(s, j - 1);
      OneIsHeldBack(s, j);
    }
  }

  lemma HolderIsUnique(s: State, t: nat, u: nat)
    requires Inv(s) && t < |s.pc| && u < |s.pc|
    requires s.pc[t] == Holding && s.pc[u] == Holding
    ensures t == u
  {
    var n := |s.pc|;
    FilterBoundInv(s, n - 1);
    var last := PassedSet(s, n - 1);
    assert t in last && u in last;
    if t != u {
      assert {t, u} <= last;
      SubsetCard({t, u}, last);
    }
  }

  /** At every moment of every run, at most n - j threads have passed level j. */
  lemma FilterBound(s: State, schedule: seq<nat>, j: nat)
    requires Initial(s) && 1 <= j < |s.pc|
    ensures |PassedSet(Run(s, schedule), j)| <= |s.pc| - j
  {
    RunKeepsInv(s, schedule);
    FilterBoundInv(Run(s, schedule), j);
  }

  /** Mutual exclusion: in every run two threads that both hold the lock are the same thread. */
  lemma MutualExclusion(s: State, schedule: seq<nat>, t: nat, u: nat)
    requires Initial(s) && t < |s.pc| && u < |s.pc|
    requires Run(s, schedule).pc[t] == Holding && Run(s, schedule).pc[u] == Holding
    ensures t == u
  {
    RunKeepsInv(s, schedule);
    HolderIsUnique(Run(s, schedule), t, u);
  }

  // ---------------------------------------------------------------------------------------------------------
  // Progress
  // ---------------------------------------------------------------------------------------------------------

  predicate Waiting(p: Pc) {
    p.Test? || p.Scan?
  }

  /** Run alone, thread t leaves the wait of level i: it is not the sacrifice of the level, or nobody else is
      at level i or above. */
  ghost predicate CanLeave(s: State, t: nat)
    requires WellFormed(s) && t < |s.pc| && Waiting(s.pc[t])
  {
    var i := s.pc[t].i;
    s.slot[i - 1] != s.owner[t] || forall r :: 0 <= r < |s.pc| && r != t ==> s.level[r] < i
  }

  ghost function SoloMeasure(s: State, t: nat): int
    requires WellFormed(s) && t < |s.pc| && Waiting(s.pc[t])
  {
    match s.pc[t]
    case Test(i, flg) => if flg && s.slot[i - 1] == s.owner[t] then |s.pc| + 2 else 0
    case Scan(i, j) => |s.pc| + 1 - j
  }

  lemma {:induction false} SoloExit(s: State, t: nat) returns (schedule: seq<nat>)
    requires Inv(s) && t < |s.pc| && Waiting(s.pc[t]) && CanLeave(s, t)
    ensures forall k :: 0 <= k < |schedule| ==> schedule[k] == t
    ensures Run(s, schedule) == s.(pc := s.pc[t := EnterLevel(|s.pc|, s.pc[t].i + 1)])
    decreases SoloMeasure(s, t)
  {
    var s1 := Step(s, t);
    StepKeepsInv(s, t);
    if s.pc[t].Test? && !(s.pc[t].flg && s.slot[s.pc[t].i - 1] == s.owner[t]) {
      schedule := [t];
      assert Run(s1, []) == s1;
      assert schedule[1..] == [];
    } else {
      var rest := SoloExit(s1, t);
      schedule := [t] + rest;
      assert schedule[1..] == rest;
      assert s1.pc[t := EnterLevel(|s.pc|, s.pc[t].i + 1)] == s.pc[t := EnterLevel(|s.pc|, s.pc[t].i + 1)];
    }
  }

  lemma {:induction false} Highest(level: seq<nat>) returns (t: nat)
    requires level != []
    ensures t < |level| && forall r :: 0 <= r < |level| ==> level[r] <= level[t]
  {
    if |level| == 1 {
      t := 0;
    } else {
      t := Highest(level[..|level| - 1]);
      if level[t] < level[|level| - 1] {
        t := |level| - 1;
      }
    }
  }

  /** Of threads that all wait, one at the highest level can leave. */
  lemma SomeWaitEnds(s: State) returns (t: nat)
    requires Inv(s) && s.pc != []
    requires exists u :: 0 <= u < |s.pc| && s.pc[u] != Outside
    requires forall u :: 0 <= u < |s.pc| ==> s.pc[u] == Outside || Waiting(s.pc[u])
    ensures t < |s.pc| && Waiting(s.pc[t]) && CanLeave(s, t)
  {
    t := Highest(s.level);
    var i := s.pc[t].i;
    if u: nat :| u < |s.pc| && u != t && s.level[u] == i {
      if s.slot[i - 1] == s.owner[t] {
        t := u;
      }
    }
  }

  /** What still lies ahead of a thread on its way through the levels. */
  function Ahead(p: Pc, n: nat): int {
    match p
    case Outside => 0
    case StoreLevel(i) => 3 * (n - i) + 2
    case StoreSlot(i) => 3 * (n - i) + 1
    case Test(i, _) => 3 * (n - i)
    case Scan(i, _) => 3 * (n - i)
    case Holding => 0
  }

  function AllAhead(pc: seq<Pc>, n: nat): int {
    if pc == [] then 0 else Ahead(pc[0], n) + AllAhead(pc[1..], n)
  }

  lemma {:induction false} AheadUpdate(pc: seq<Pc>, n: nat, t: nat, p: Pc)
    requires t < |pc|
    ensures AllAhead(pc[t := p], n) == AllAhead(pc, n) - Ahead(pc[t], n) + Ahead(p, n)
  {
    if t == 0 {
      assert pc[t := p][1..] == pc[1..];
    } else {
      AheadUpdate(pc[1..], n, t - 1, p);
      assert pc[t := p][1..] == pc[1..][t - 1 := p];
    }
  }

  lemma {:induction false} AheadNatural(pc: seq<Pc>, n: nat)
    requires forall t :: 0 <= t < |pc| ==> PcInRange(pc[t], n)
    ensures AllAhead(pc, n) >= 0
  {
    if pc != [] {
      AheadNatural(pc[1..], n);
    }
  }

  lemma {:induction false} RunAppend(s: State, a: seq<nat>, b: seq<nat>)
    requires WellFormed(s)
    ensures Run(s, a + b) == Run(Run(s, a), b)
    decreases |a|
  {
    if a == [] {
      assert a + b == b;
    } else {
      RunAppend(StepOrIdle(s, a[0]), a[1..], b);
      assert (a + b)[1..] == a[1..] + b;
    }
  }

  ghost predicate OnlyCompetitors(s: State, schedule: seq<nat>) {
    forall k :: 0 <= k < |schedule| ==> schedule[k] < |s.pc| && s.pc[schedule[k]] != Outside
  }

  ghost predicate SomeoneHolds(s: State) {
    exists t :: 0 <= t < |s.pc| && s.pc[t] == Holding
  }

  /** As long as nobody holds the lock, some competitor can be brought forward. */
  lemma OneRound(s: State) returns (t: nat, round: seq<nat>)
    requires Inv(s) && !SomeoneHolds(s)
    requires exists u :: 0 <= u < |s.pc| && s.pc[u] != Outside
    ensures t < |s.pc| && s.pc[t] != Outside
    ensures forall k :: 0 <= k < |round| ==> round[k] == t
    ensures var pc := Run(s, round).pc;
            |pc| == |s.pc| && pc == s.pc[t := pc[t]] && pc[t] != Outside
            && Ahead(pc[t], |s.pc|) < Ahead(s.pc[t], |s.pc|)
  {
    if u: nat :| u < |s.pc| && (s.pc[u].StoreLevel? || s.pc[u].StoreSlot?) {
      t, round := u, [u];
      assert Run(Step(s, t), []) == Step(s, t);
      assert round[1..] == [];
    } else {
      t := SomeWaitEnds(s);
      round := SoloExit(s, t);
    }
  }

  /** If threads compete for a free lock, then some schedule of these threads alone gives the lock away. */
  lemma {:induction false} SomeoneGetsIn(s: State) returns (schedule: seq<nat>)
    requires Inv(s) && !SomeoneHolds(s)
    requires exists t :: 0 <= t < |s.pc| && s.pc[t] != Outside
    ensures OnlyCompetitors(s, schedule)
    ensures SomeoneHolds(Run(s, schedule))
    decreases AllAhead(s.pc, |s.pc|)
  {
    var t, round := OneRound(s);
    var s1 := Run(s, round);
    RunKeepsInv(s, round);
    if s1.pc[t] == Holding {
      schedule := round;
    } else {
      AheadUpdate(s.pc, |s.pc|, t, s1.pc[t]);
      AheadNatural(s.pc, |s.pc|);
      AheadNatural(s1.pc, |s.pc|);
      var rest := SomeoneGetsIn(s1);
      RunAppend(s, round, rest);
      schedule := round + rest;
    }
  }

  /** Deadlock freedom: after any run that leaves the lock free while somebody is inside `lock`, the threads
      then inside can go on, without any new caller, until one of them holds the lock. */
  lemma DeadlockFreedom(s: State, schedule: seq<nat>, t: nat)
    requires Initial(s) && t < |s.pc|
    requires var now := Run(s, schedule); now.pc[t] != Outside && !SomeoneHolds(now)
    ensures exists more :: OnlyCompetitors(Run(s, schedule), more) && SomeoneHolds(Run(s, schedule + more))
  {
    RunKeepsInv(s, schedule);
    var more := SomeoneGetsIn(Run(s, schedule));
    RunAppend(s, schedule, more);
  }
}
