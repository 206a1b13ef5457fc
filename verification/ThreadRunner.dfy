/** The program of T3/thread_runner.c in its PMUTEX_H2 form: n threads fill one buffer under the filter lock.

    Inside the critical section every access to the shared pointer and to the buffer is a step of its own, so
    that `buffer_ptr++` is a load followed by a store and only the lock keeps other threads out.
 */
module ThreadRunner {
  import opened FilterLock
  import PMutex

  // ---------------------------------------------------------------------------------------------------------
  // Names
  // ---------------------------------------------------------------------------------------------------------

  /** Conversion of an int to a signed 8-bit char. */
  function ToChar(x: int): int {
    (x + 128) % 256 - 128
  }

  function GetThName(id: int): int {
    ToChar(65 + (if id > 25 then id + 7 else id))
  }

  function GetThId(name: int): int {
    (if name > 90 then ToChar(name - 7) else name) - 65
  }

  /** Names and ids correspond exactly for the ids that fit: 'A' to 'Z', then 'b' up to code 127. */
  lemma NameRoundTrip(id: nat)
    ensures GetThId(GetThName(id)) == id <==> id <= 55
  {
    if id > 55 {
      assert -128 <= GetThName(id) <= 127;
    }
  }

  predicate IsLetter(name: int) {
    'A' as int <= name <= 'Z' as int || 'a' as int <= name <= 'z' as int
  }

  /** The first 26 threads have the capital letters, the next 25 the small ones from 'b' on; the others that have a
      name of their own have no letter. */
  lemma NamesAreLetters(id: nat)
    requires id <= 55
    ensures id < 26 ==> GetThName(id) == 'A' as int + id
    ensures id >= 26 ==> GetThName(id) == 'b' as int + (id - 26)
    ensures IsLetter(GetThName(id)) <==> id <= 50
  {
  }

  // ---------------------------------------------------------------------------------------------------------
  // The threads
  // ---------------------------------------------------------------------------------------------------------

  /** Where a thread stands in the body of its `while (1)` loop once it holds the lock. */
  datatype Phase =
    | Check            // buffer_ptr == buffer + buff_size - 1 ?
    | LoadForPut       // read buffer_ptr for the store of the name
    | Put(p: nat)      // store the name at p
    | LoadForBump      // read buffer_ptr for the increment
    | Bump(p: nat)     // store p + 1 into buffer_ptr
    | Release          // unlock and go round again
    | Finish           // unlock and exit
    | Exited

  /** One executed store of a name: the cell and the id of the thread. */
  datatype Write = Write(cell: nat, id: nat)

  /** Owners are identified by the ids of their threads.  `writes` is a history of the stores into the buffer,
      which no step reads. */
  datatype Prog = Prog(lock: State, phase: seq<Phase>, buffer: seq<int>, ptr: nat, writes: seq<Write>)

  ghost predicate WellFormedProg(s: Prog) {
    && WellFormed(s.lock)
    && |s.phase| == |s.lock.pc|
    && (forall t :: 0 <= t < |s.lock.owner| ==> 0 <= s.lock.owner[t] < |s.phase|)
    && s.buffer != []
  }

  /** Thread i was registered i-th and so is found at node n - 1 - i. */
  ghost predicate Started(s: Prog) {
    && Initial(s.lock)
    && |s.phase| == |s.lock.pc|
    && (forall t :: 0 <= t < |s.phase| ==> s.lock.owner[t] == |s.phase| - 1 - t && s.phase[t] == Check)
    && s.buffer != []
    && (forall k :: 0 <= k < |s.buffer| ==> s.buffer[k] == 0)
    && s.ptr == 0 && s.writes == []
  }

  function ProgStep(s: Prog, t: nat): Prog
    requires |s.lock.owner| == |s.lock.level| == |s.lock.slot| == |s.lock.pc| == |s.phase| && t < |s.phase|
    requires PcInRange(s.lock.pc[t], |s.phase|)
    requires 0 <= s.lock.owner[t] && s.buffer != []
  {
    if s.lock.pc[t] != Holding then
      if s.phase[t] == Exited then s else s.(lock := Step(s.lock, t))
    else
      match s.phase[t]
      case Check =>
        s.(phase := s.phase[t := if s.ptr == |s.buffer| - 1 then Finish else LoadForPut])
      case LoadForPut => s.(phase := s.phase[t := Put(s.ptr)])
      case Put(p) =>
        if p < |s.buffer| then
          s.(buffer := s.buffer[p := GetThName(s.lock.owner[t])],
             writes := s.writes + [Write(p, s.lock.owner[t])],
             phase := s.phase[t := LoadForBump])
        else s
      case LoadForBump => s.(phase := s.phase[t := Bump(s.ptr)])
      case Bump(p) => s.(ptr := p + 1, phase := s.phase[t := Release])
      case Release => s.(lock := Step(s.lock, t), phase := s.phase[t := Check])
      case Finish => s.(lock := Step(s.lock, t), phase := s.phase[t := Exited])
      case Exited => s
  }

  ghost function ProgStepOrIdle(s: Prog, t: nat): Prog
    requires WellFormedProg(s)
    ensures WellFormedProg(ProgStepOrIdle(s, t)) && |ProgStepOrIdle(s, t).phase| == |s.phase|
  {
    if t < |s.phase| then ProgStep(s, t) else s
  }

  ghost function ProgRun(s: Prog, schedule: seq<nat>): Prog
    requires WellFormedProg(s)
    ensures WellFormedProg(ProgRun(s, schedule)) && |ProgRun(s, schedule).phase| == |s.phase|
    decreases |schedule|
  {
    if schedule == [] then s else ProgRun(ProgStepOrIdle(s, schedule[0]), schedule[1..])
  }

  // ---------------------------------------------------------------------------------------------------------
  // The invariant
  // ---------------------------------------------------------------------------------------------------------

  /** What a holder in phase `ph` may rely on. */
  ghost predicate PhaseFits(s: Prog, ph: Phase)
    requires s.buffer != []
  {
    var end := |s.buffer| - 1;
    match ph
    case Check => |s.writes| == s.ptr
    case LoadForPut => |s.writes| == s.ptr < end
    case Put(p) => |s.writes| == s.ptr == p < end
    case LoadForBump => |s.writes| == s.ptr + 1
    case Bump(p) => |s.writes| == s.ptr + 1 == p + 1
    case Release => |s.writes| == s.ptr
    case Finish => |s.writes| == s.ptr == end
    case Exited => false
  }

  /** The cells below |writes| hold the names of their one writer, all others are still NUL. */
  ghost predicate BufferFits(s: Prog)
    requires s.buffer != []
  {
    && s.ptr <= |s.writes| <= |s.buffer| - 1
    && (forall k :: 0 <= k < |s.writes| ==>
          s.writes[k].cell == k && s.writes[k].id < |s.phase| && s.buffer[k] == GetThName(s.writes[k].id))
    && (forall k :: |s.writes| <= k < |s.buffer| ==> s.buffer[k] == 0)
  }

  ghost predicate ProgInv(s: Prog) {
    && WellFormedProg(s) && Inv(s.lock) && BufferFits(s)
    && (forall t :: 0 <= t < |s.phase| ==>
          if s.lock.pc[t] == Holding then PhaseFits(s, s.phase[t])
          else s.phase[t] == Check || (s.phase[t] == Exited && s.lock.pc[t] == Outside && s.ptr == |s.buffer| - 1))
    && (!SomeoneHolds(s.lock) ==> |s.writes| == s.ptr)
  }

  lemma StartedInv(s: Prog)
    requires Started(s)
    ensures ProgInv(s)
  {
    InitialInv(s.lock);
  }

  /** A step inside the critical section: everybody else is outside it. */
  lemma HolderStepKeepsInv(s: Prog, t: nat)
    requires ProgInv(s) && t < |s.phase| && s.lock.pc[t] == Holding
    ensures ProgInv(ProgStep(s, t))
  {
    var s' := ProgStep(s, t);
    forall u | 0 <= u < |s.phase| && s.lock.pc[u] == Holding ensures u == t {
      HolderIsUnique(s.lock, t, u);
    }
    assert PhaseFits(s, s.phase[t]);
    if s.phase[t] == Release || s.phase[t] == Finish {
      StepKeepsInv(s.lock, t);
      assert !SomeoneHolds(s'.lock);
    } else {
      assert s'.lock == s.lock && SomeoneHolds(s.lock);
    }
    assert BufferFits(s');
  }

  /** A step outside the critical section: of `lock`, and it leaves everything but the lock alone. */
  lemma OutsiderStepKeepsInv(s: Prog, t: nat)
    requires ProgInv(s) && t < |s.phase| && s.lock.pc[t] != Holding && s.phase[t] != Exited
    ensures ProgInv(ProgStep(s, t))
  {
    StepKeepsInv(s.lock, t);
    LockStepKeepsOthers(s.lock, t);
    OtherLock(s, Step(s.lock, t), t);
    assert ProgStep(s, t) == s.(lock := Step(s.lock, t));
  }

  lemma LockStepKeepsOthers(s: State, t: nat)
    requires WellFormed(s) && t < |s.pc|
    ensures Step(s, t).owner == s.owner && forall u :: 0 <= u < |s.pc| && u != t ==> Step(s, t).pc[u] == s.pc[u]
  {
  }

  /** Another state of the lock, in which thread t has moved. */
  lemma OtherLock(s: Prog, next: State, t: nat)
    requires ProgInv(s) && t < |s.phase| && s.lock.pc[t] != Holding && s.phase[t] != Exited
    requires Inv(next) && next.owner == s.lock.owner && |next.pc| == |s.phase|
    requires forall u :: 0 <= u < |s.phase| && u != t ==> next.pc[u] == s.lock.pc[u]
    ensures ProgInv(s.(lock := next))
  {
    assert s.phase[t] == Check;
    if next.pc[t] == Holding {
      OnlyHolder(s, next, t);
    }
    if SomeoneHolds(s.lock) {
      var h: nat :| h < |s.lock.pc| && s.lock.pc[h] == Holding;
      assert next.pc[h] == Holding;
    }
  }

  /** A thread that gets hold of the lock finds nobody else holding it, and so no write under way. */
  lemma OnlyHolder(s: Prog, next: State, t: nat)
    requires ProgInv(s) && t < |s.phase| && s.lock.pc[t] != Holding
    requires Inv(next) && |next.pc| == |s.phase| && next.pc[t] == Holding
    requires forall u :: 0 <= u < |s.phase| && u != t ==> next.pc[u] == s.lock.pc[u]
    ensures |s.writes| == s.ptr
  {
    if SomeoneHolds(s.lock) {
      var h: nat :| h < |s.lock.pc| && s.lock.pc[h] == Holding;
      HolderIsUnique(next, h, t);
    }
  }

  lemma ProgStepKeepsInv(s: Prog, t: nat)
    requires ProgInv(s) && t < |s.phase|
    ensures ProgInv(ProgStep(s, t))
  {
    if s.lock.pc[t] == Holding {
      HolderStepKeepsInv(s, t);
    } else if s.phase[t] != Exited {
      OutsiderStepKeepsInv(s, t);
    }
  }

  lemma {:induction false} ProgRunKeepsInv(s: Prog, schedule: seq<nat>)
    requires ProgInv(s)
    ensures ProgInv(ProgRun(s, schedule))
    ensures |ProgRun(s, schedule).buffer| == |s.buffer|
    decreases |schedule|
  {
    if schedule != [] {
      if schedule[0] < |s.phase| {
        ProgStepKeepsInv(s, schedule[0]);
      }
      ProgRunKeepsInv(ProgStepOrIdle(s, schedule[0]), schedule[1..]);
    }
  }

  // ---------------------------------------------------------------------------------------------------------
  // The program can always finish
  // ---------------------------------------------------------------------------------------------------------

  lemma {:induction false} ProgRunFirst(s: Prog, t: nat, rest: seq<nat>)
    requires WellFormedProg(s)
    ensures ProgRun(s, [t] + rest) == ProgRun(ProgStepOrIdle(s, t), rest)
  {
    assert ([t] + rest)[1..] == rest;
  }

  lemma {:induction false} ProgRunAppend(s: Prog, a: seq<nat>, b: seq<nat>)
    requires WellFormedProg(s)
    ensures ProgRun(s, a + b) == ProgRun(ProgRun(s, a), b)
    decreases |a|
  {
    if a == [] {
      assert a + b == b;
    } else {
      var t, rest := a[0], a[1..];
      assert a == [t] + rest && a + b == [t] + (rest + b);
      ProgRunFirst(s, t, rest);
      ProgRunFirst(s, t, rest + b);
      ProgRunAppend(ProgStepOrIdle(s, t), rest, b);
    }
  }

  /** The number of threads that have not exited. */
  function Live(phase: seq<Phase>): nat {
    if phase == [] then 0 else (if phase[0] == Exited then 0 else 1) + Live(phase[1..])
  }

  lemma {:induction false} LiveUpdate(phase: seq<Phase>, t: nat, ph: Phase)
    requires t < |phase| && phase[t] != Exited
    ensures Live(phase[t := ph]) == Live(phase) - if ph == Exited then 1 else 0
  {
    if t == 0 {
      assert phase[t := ph][1..] == phase[1..];
    } else {
      LiveUpdate(phase[1..], t - 1, ph);
      assert phase[t := ph][1..] == phase[1..][t - 1 := ph];
    }
  }

  /** The visits to the critical section that are still to come. */
  ghost function Visits(s: Prog): int {
    |s.buffer| - 1 - s.ptr + Live(s.phase)
  }

  /** What is left of a visit to the critical section. */
  function StepsLeft(ph: Phase): nat {
    match ph
    case Check => 6
    case LoadForPut => 5
    case Put(_) => 4
    case LoadForBump => 3
    case Bump(_) => 2
    case Release => 1
    case Finish => 1
    case Exited => 0
  }

  ghost predicate AllExited(s: Prog) {
    forall t :: 0 <= t < |s.phase| ==> s.phase[t] == Exited
  }

  /** Steps of the lock taken by threads of the program, up to the moment when one of them holds it. */
  lemma {:induction false} ReachHolder(s: Prog, schedule: seq<nat>) returns (pre: seq<nat>)
    requires ProgInv(s) && !SomeoneHolds(s.lock) && SomeoneHolds(Run(s.lock, schedule))
    requires forall k :: 0 <= k < |schedule| ==> schedule[k] < |s.phase| && s.phase[schedule[k]] != Exited
    ensures var r := ProgRun(s, pre);
            ProgInv(r) && SomeoneHolds(r.lock) && r.phase == s.phase && r.ptr == s.ptr && |r.buffer| == |s.buffer|
    decreases |schedule|
  {
    var t := schedule[0];
    assert s.lock.pc[t] != Holding;
    var s1 := ProgStep(s, t);
    ProgStepKeepsInv(s, t);
    var rest := [];
    if !SomeoneHolds(s1.lock) {
      rest := ReachHolder(s1, schedule[1..]);
    }
    pre := [t] + rest;
    assert pre[1..] == rest;
  }

  /** From any state in which the lock is free, some thread that has not exited gets hold of it. */
  lemma SomeoneVisits(s: Prog, u: nat) returns (pre: seq<nat>)
    requires ProgInv(s) && !SomeoneHolds(s.lock) && u < |s.phase| && s.phase[u] != Exited
    ensures var r := ProgRun(s, pre);
            ProgInv(r) && SomeoneHolds(r.lock) && r.phase == s.phase && r.ptr == s.ptr && |r.buffer| == |s.buffer|
  {
    if exists v :: 0 <= v < |s.lock.pc| && s.lock.pc[v] != Outside {
      var schedule := SomeoneGetsIn(s.lock);
      pre := ReachHolder(s, schedule);
    } else {
      var s1 := Step(s.lock, u);
      StepKeepsInv(s.lock, u);
      assert s1.pc[u] != Outside;
      var more := [];
      if !SomeoneHolds(s1) {
        more := SomeoneGetsIn(s1);
      }
      assert Run(s.lock, [u] + more) == Run(s1, more) by {
        assert ([u] + more)[1..] == more;
      }
      forall k | 0 <= k < |more| ensures more[k] == u {
        assert s1.pc[more[k]] != Outside;
      }
      pre := ReachHolder(s, [u] + more);
    }
  }

  lemma {:induction false} FinishFree(s: Prog) returns (schedule: seq<nat>)
    requires ProgInv(s) && !SomeoneHolds(s.lock)
    ensures AllExited(ProgRun(s, schedule))
    decreases Visits(s), 7
  {
    schedule := [];
    if !AllExited(s) {
      var u: nat :| u < |s.phase| && s.phase[u] != Exited;
      var pre := SomeoneVisits(s, u);
      var r := ProgRun(s, pre);
      var h: nat :| h < |r.lock.pc| && r.lock.pc[h] == Holding;
      var rest := FinishHeld(r, h);
      ProgRunAppend(s, pre, rest);
      schedule := pre + rest;
    }
  }

  lemma {:induction false} FinishHeld(s: Prog, t: nat) returns (schedule: seq<nat>)
    requires ProgInv(s) && t < |s.phase| && s.lock.pc[t] == Holding
    ensures AllExited(ProgRun(s, schedule))
    decreases Visits(s), if s.phase[t] == Release then 8 else StepsLeft(s.phase[t])
  {
    var s1 := ProgStep(s, t);
    ProgStepKeepsInv(s, t);
    assert PhaseFits(s, s.phase[t]);
    LiveUpdate(s.phase, t, s1.phase[t]);
    assert s1.phase == s.phase[t := s1.phase[t]];
    var rest;
    if s1.lock.pc[t] == Holding {
      rest := FinishHeld(s1, t);
    } else {
      forall u | 0 <= u < |s.phase| ensures s1.lock.pc[u] != Holding {
        if s.lock.pc[u] == Holding {
          HolderIsUnique(s.lock, t, u);
        }
      }
      rest := FinishFree(s1);
    }
    schedule := [t] + rest;
    assert schedule[1..] == rest;
  }

  /** No run of the program gets stuck: whatever has happened so far, all threads can still fill the buffer and
      exit. */
  lemma CanAlwaysFinish(s: Prog, schedule: seq<nat>)
    requires Started(s)
    ensures exists more :: AllExited(ProgRun(s, schedule + more))
  {
    StartedInv(s);
    ProgRunKeepsInv(s, schedule);
    var now := ProgRun(s, schedule);
    var more;
    if SomeoneHolds(now.lock) {
      var h: nat :| h < |now.lock.pc| && now.lock.pc[h] == Holding;
      more := FinishHeld(now, h);
    } else {
      more := FinishFree(now);
    }
    ProgRunAppend(s, schedule, more);
  }

  // ---------------------------------------------------------------------------------------------------------
  // What a whole run leaves behind
  // ---------------------------------------------------------------------------------------------------------

  function WritesBy(writes: seq<Write>, id: nat): nat {
    if writes == [] then 0
    else WritesBy(writes[..|writes| - 1], id) + if writes[|writes| - 1].id == id then 1 else 0
  }

  /** How often the text contains a character whose name belongs to `id`. */
  function Occurrences(text: seq<int>, id: int): nat {
    if text == [] then 0
    else Occurrences(text[..|text| - 1], id) + if GetThId(text[|text| - 1]) == id then 1 else 0
  }

  lemma {:induction false} OccurrencesCountWrites(text: seq<int>, writes: seq<Write>, id: nat)
    requires |text| == |writes|
    requires forall k :: 0 <= k < |text| ==> text[k] == GetThName(writes[k].id) && writes[k].id <= 55
    ensures Occurrences(text, id) == WritesBy(writes, id)
  {
    if text != [] {
      var last := |text| - 1;
      OccurrencesCountWrites(text[..last], writes[..last], id);
      NameRoundTrip(writes[last].id);
    }
  }

  /** When every thread has exited, each of the buff_size - 1 cells was written exactly once, in order, and
      carries the name of its writer; the closing NUL is untouched; and if the names are unambiguous, counting
      names in the buffer counts the stores of each thread. */
  lemma FinishedRun(s: Prog, schedule: seq<nat>)
    requires Started(s) && s.phase != []
    requires AllExited(ProgRun(s, schedule))
    ensures var r := ProgRun(s, schedule);
            var end := |s.buffer| - 1;
            && |r.buffer| == |s.buffer| && |r.writes| == end
            && (forall k | 0 <= k < end ::
                  r.writes[k].cell == k && r.writes[k].id < |s.phase| && r.buffer[k] == GetThName(r.writes[k].id))
            && r.buffer[end] == 0
            && (|s.phase| <= 56 ==>
                  (forall k :: 0 <= k < end ==> GetThId(r.buffer[k]) == r.writes[k].id)
                  && (forall id: nat :: Occurrences(r.buffer[..end], id) == WritesBy(r.writes, id)))
  {
    StartedInv(s);
    ProgRunKeepsInv(s, schedule);
    var r := ProgRun(s, schedule);
    assert r.phase[0] == Exited;
    if |s.phase| <= 56 {
      forall k | 0 <= k < |s.buffer| - 1 ensures GetThId(r.buffer[k]) == r.writes[k].id {
        NameRoundTrip(r.writes[k].id);
      }
      forall id: nat ensures Occurrences(r.buffer[..|s.buffer| - 1], id) == WritesBy(r.writes, id) {
        OccurrencesCountWrites(r.buffer[..|s.buffer| - 1], r.writes, id);
      }
    }
  }

  function SumOf(counts: seq<nat>): nat {
    if counts == [] then 0 else counts[0] + SumOf(counts[1..])
  }

  lemma {:induction false} SumUpdate(counts: seq<nat>, k: nat)
    requires k < |counts|
    ensures SumOf(counts[k := counts[k] + 1]) == SumOf(counts) + 1
  {
    if k == 0 {
      assert counts[k := counts[k] + 1][1..] == counts[1..];
    } else {
      SumUpdate(counts[1..], k - 1);
      assert counts[k := counts[k] + 1][1..] == counts[1..][k - 1 := counts[k] + 1];
    }
  }

  lemma {:induction false} SumZero(counts: seq<nat>)
    requires forall k :: 0 <= k < |counts| ==> counts[k] == 0
    ensures SumOf(counts) == 0
  {
    if counts != [] {
      SumZero(counts[1..]);
    }
  }

  // ---------------------------------------------------------------------------------------------------------
  // Post-processing
  // ---------------------------------------------------------------------------------------------------------

  /** `runs` is `text` with adjacent repeats removed: neighbours in it differ, and repeating its k-th element
      `counts[k]` times, at least once each, gives the text back. */
  ghost predicate Collapsed(text: seq<int>, runs: seq<int>, counts: seq<nat>) {
    && |runs| == |counts|
    && (forall k :: 0 <= k < |counts| ==> counts[k] >= 1)
    && (forall k :: 0 < k < |runs| ==> runs[k - 1] != runs[k])
    && Expand(runs, counts) == text
  }

  function Expand(runs: seq<int>, counts: seq<nat>): seq<int>
    requires |runs| == |counts|
  {
    if runs == [] then []
    else
      var last := |runs| - 1;
      Expand(runs[..last], counts[..last]) + seq(counts[last], _ => runs[last])
  }

  lemma {:induction false} CollapsedUnique(text: seq<int>, r1: seq<int>, c1: seq<nat>, r2: seq<int>, c2: seq<nat>)
    requires Collapsed(text, r1, c1) && Collapsed(text, r2, c2)
    ensures r1 == r2 && c1 == c2
    decreases |r1|
  {
    if r1 == [] || r2 == [] {
      assert r1 == [] && r2 == [];
    } else {
      SameLastRun(text, r1, c1, r2, c2);
      var l1, l2 := |r1| - 1, |r2| - 1;
      var rest := text[..|text| - c1[l1]];
      CollapsedUnique(rest, r1[..l1], c1[..l1], r2[..l2], c2[..l2]);
      assert r1 == r1[..l1] + [r1[l1]] && r2 == r2[..l2] + [r2[l2]];
      assert c1 == c1[..l1] + [c1[l1]] && c2 == c2[..l2] + [c2[l2]];
    }
  }

  lemma SameLastRun(text: seq<int>, r1: seq<int>, c1: seq<nat>, r2: seq<int>, c2: seq<nat>)
    requires Collapsed(text, r1, c1) && Collapsed(text, r2, c2) && r1 != [] && r2 != []
    ensures var l1, l2 := |r1| - 1, |r2| - 1;
            && r1[l1] == r2[l2] && c1[l1] == c2[l2] && c1[l1] <= |text|
            && Collapsed(text[..|text| - c1[l1]], r1[..l1], c1[..l1])
            && Collapsed(text[..|text| - c1[l1]], r2[..l2], c2[..l2])
  {
    LastRun(text, r1, c1);
    LastRun(text, r2, c2);
    var l1, l2 := |r1| - 1, |r2| - 1;
    assert text[|text| - 1] == r1[l1] == r2[l2];
  }

  /** The last run of a collapsed text is a maximal block of equal characters at its end. */
  lemma LastRun(text: seq<int>, runs: seq<int>, counts: seq<nat>)
    requires Collapsed(text, runs, counts) && runs != []
    ensures var last := |runs| - 1;
            && 1 <= counts[last] <= |text|
            && (forall k :: |text| - counts[last] <= k < |text| ==> text[k] == runs[last])
            && (counts[last] < |text| ==> text[|text| - counts[last] - 1] != runs[last])
            && Collapsed(text[..|text| - counts[last]], runs[..last], counts[..last])
  {
    var last := |runs| - 1;
    var front := Expand(runs[..last], counts[..last]);
    assert text[..|text| - counts[last]] == front;
    if last > 0 {
      assert runs[..last][..last - 1] == runs[..last - 1] && counts[..last][..last - 1] == counts[..last - 1];
      assert front[|front| - 1] == runs[last - 1];
    }
  }

  /** `counts` holds the number of occurrences of every id in the text, and of nothing else. */
  ghost predicate CountsFit(counts: seq<nat>, text: seq<int>) {
    && (forall id :: 0 <= id < |counts| ==> counts[id] == Occurrences(text, id))
    && SumOf(counts) == |text|
  }

  lemma CountOne(counts: seq<nat>, text: seq<int>, c: int)
    requires CountsFit(counts, text) && 0 <= GetThId(c) < |counts|
    ensures CountsFit(counts[GetThId(c) := counts[GetThId(c)] + 1], text + [c])
  {
    SumUpdate(counts, GetThId(c));
    assert (text + [c])[..|text|] == text;
  }

  /** Counts the names in the buffer and collapses adjacent repeats; the sequence buffer starts with room for
      one character per thread and doubles when it is full. */
  method PostProcessing(threadNumber: nat, buffer: seq<int>)
    returns (occurrences: seq<nat>, sequence: seq<int>, ghost counts: seq<nat>)
    requires threadNumber >= 1 && buffer != []
    requires forall k :: 0 <= k < |buffer| - 1 ==> 0 <= GetThId(buffer[k]) < threadNumber
    ensures |occurrences| == threadNumber && CountsFit(occurrences, buffer[..|buffer| - 1])
    ensures Collapsed(buffer[..|buffer| - 1], sequence, counts)
  {
    var thOccurrences := new nat[threadNumber](_ => 0);
    var seqBuff := new int[threadNumber](_ => 0);
    var j, curr := 0, 0;
    counts := [];
    SumZero(thOccurrences[..]);
    while curr != |buffer| - 1
      invariant 0 <= curr <= |buffer| - 1 && 0 <= j <= seqBuff.Length && seqBuff.Length >= 1
      invariant fresh(thOccurrences) && fresh(seqBuff) && thOccurrences.Length == threadNumber
      invariant CountsFit(thOccurrences[..], buffer[..curr])
      invariant Collapsed(buffer[..curr], seqBuff[..j], counts)
      decreases |buffer| - 1 - curr
    {
      var c := buffer[curr];
      assert buffer[..curr + 1] == buffer[..curr] + [c];
      seqBuff, j, counts := Record(seqBuff, j, c, buffer[..curr], counts);
      CountChar(thOccurrences, c, buffer[..curr]);
      curr := curr + 1;
    }
    occurrences, sequence := thOccurrences[..], seqBuff[..j];
  }

  /** Counts one character of the buffer. */
  method CountChar(thOccurrences: array<nat>, c: int, ghost text: seq<int>)
    requires CountsFit(thOccurrences[..], text) && 0 <= GetThId(c) < thOccurrences.Length
    modifies thOccurrences
    ensures CountsFit(thOccurrences[..], text + [c])
  {
    ghost var tally := thOccurrences[..];
    CountOne(tally, text, c);
    thOccurrences[GetThId(c)] := thOccurrences[GetThId(c)] + 1;
    assert thOccurrences[..] == tally[GetThId(c) := tally[GetThId(c)] + 1];
  }

  /** Adds one character of the buffer to the sequence buffer, of which j cells are in use. */
  method Record(a: array<int>, j: nat, c: int, ghost text: seq<int>, ghost counts: seq<nat>)
    returns (b: array<int>, j': nat, ghost counts': seq<nat>)
    requires 1 <= a.Length && j <= a.Length && Collapsed(text, a[..j], counts)
    modifies a
    ensures b == a || fresh(b)
    ensures j' <= b.Length && 1 <= b.Length && Collapsed(text + [c], b[..j'], counts')
  {
    ghost var runs := a[..j];
    b, j', counts' := a, j, counts;
    if j == 0 || a[j - 1] != c {
      if j == a.Length {
        b := Doubled(a);
      }
      assert b[..j] == runs;
      b[j] := c;
      j' := j + 1;
      CollapsedNew(text, runs, counts, c);
      counts' := counts + [1];
      assert b[..j'] == b[..j] + [c] == runs + [c];
    } else {
      CollapsedAgain(text, runs, counts);
      counts' := counts[j - 1 := counts[j - 1] + 1];
    }
  }

  /** The sequence buffer reallocated with twice the room. */
  method Doubled(a: array<int>) returns (b: array<int>)
    ensures fresh(b) && b.Length == 2 * a.Length && b[..a.Length] == a[..]
  {
    b := new int[2 * a.Length](k requires 0 <= k reads a => if k < a.Length then a[k] else 0);
  }

  lemma CollapsedNew(text: seq<int>, runs: seq<int>, counts: seq<nat>, c: int)
    requires Collapsed(text, runs, counts)
    requires runs == [] || runs[|runs| - 1] != c
    ensures Collapsed(text + [c], runs + [c], counts + [1])
  {
    assert (runs + [c])[..|runs|] == runs && (counts + [1])[..|runs|] == counts;
    assert seq(1, _ => c) == [c];
  }

  lemma CollapsedAgain(text: seq<int>, runs: seq<int>, counts: seq<nat>)
    requires Collapsed(text, runs, counts) && runs != []
    ensures var last := |runs| - 1;
            Collapsed(text + [runs[last]], runs, counts[last := counts[last] + 1])
  {
    var last := |runs| - 1;
    var counts' := counts[last := counts[last] + 1];
    assert counts'[..last] == counts[..last];
    assert seq(counts'[last], _ => runs[last]) == seq(counts[last], _ => runs[last]) + [runs[last]];
  }

  /** What the threads leave behind fits the post-processing: every name belongs to a thread, and correct counts of the
      names are the numbers of stores of the threads. */
  lemma FinishedBufferFits(s: Prog, schedule: seq<nat>, occurrences: seq<nat>)
    requires Started(s) && 1 <= |s.phase| <= 56 && AllExited(ProgRun(s, schedule))
    ensures var r := ProgRun(s, schedule);
            var end := |r.buffer| - 1;
            && r.buffer != [] && r.buffer[..end] == Names(r.writes)
            && (forall k :: 0 <= k < end ==> 0 <= GetThId(r.buffer[k]) < |s.phase|)
            && (CountsFit(occurrences, r.buffer[..end]) ==>
                  forall id: nat :: id < |occurrences| ==> occurrences[id] == WritesBy(r.writes, id))
  {
    FinishedRun(s, schedule);
    var r := ProgRun(s, schedule);
    assert r.buffer[..|r.buffer| - 1] == Names(r.writes);
  }

  /** The whole program, in any interleaving: the counts printed at the end are the numbers of stores that the threads
      have made, they add up to the size of the text, and the printed sequence is the order of the stores with adjacent
      repeats removed. */
  method CountRun(ghost s: Prog, ghost schedule: seq<nat>, threadNumber: nat, buffer: seq<int>)
    returns (occurrences: seq<nat>, sequence: seq<int>, ghost counts: seq<nat>)
    requires Started(s) && 1 <= |s.phase| <= 56 && AllExited(ProgRun(s, schedule))
    requires threadNumber == |s.phase| && buffer == ProgRun(s, schedule).buffer
    ensures |occurrences| == threadNumber && SumOf(occurrences) == |buffer| - 1
    ensures forall id: nat :: id < threadNumber ==> occurrences[id] == WritesBy(ProgRun(s, schedule).writes, id)
    ensures Collapsed(Names(ProgRun(s, schedule).writes), sequence, counts)
  {
    FinishedBufferFits(s, schedule, []);
    occurrences, sequence, counts := PostProcessing(threadNumber, buffer);
    FinishedBufferFits(s, schedule, occurrences);
  }

  /** The names of the writers in the order of the stores. */
  function Names(writes: seq<Write>): seq<int> {
    seq(|writes|, k requires 0 <= k < |writes| => GetThName(writes[k].id))
  }

  // ---------------------------------------------------------------------------------------------------------
  // Starting up
  // ---------------------------------------------------------------------------------------------------------

  /** The registration loop of the main thread: a mutex for the threads 0 .. n - 1, with the lock state from
      which every run above starts. */
  method Register(n: nat) returns (m: PMutex.Mutex)
    ensures m.Valid() && m.size == n && Initial(m.View())
    ensures forall t :: 0 <= t < n ==> m.View().owner[t] == n - 1 - t
  {
    m := new PMutex.Mutex();
    var i := 0;
    while i < n
      invariant 0 <= i <= n && fresh(m)
      invariant m.Valid() && m.size == i && Initial(m.View())
      invariant forall t :: 0 <= t < i ==> m.View().owner[t] == i - 1 - t
    {
      m.Add(i, 0);
      i := i + 1;
    }
  }
}
