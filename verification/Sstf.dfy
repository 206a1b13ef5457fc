/** The shortest-seek-time-first disk scheduler of modules/sstf-iosched/sstf-iosched.c. */
module Sstf {

  /** A queued request; the id tells requests for the same sector apart. */
  datatype Request = Request(id: nat, sector: nat)

  function Dist(x: int, y: int): nat {
    if x >= y then x - y else y - x
  }

  /** Among the first n requests, the first of those nearest to the head. */
  function NearestOf(queue: seq<Request>, head: int, n: nat): (k: nat)
    requires 1 <= n <= |queue|
    ensures k < n
    ensures forall j :: 0 <= j < n ==> Dist(head, queue[k].sector) <= Dist(head, queue[j].sector)
    ensures forall j :: 0 <= j < k ==> Dist(head, queue[k].sector) < Dist(head, queue[j].sector)
  {
    if n == 1 then 0
    else
      var k := NearestOf(queue, head, n - 1);
      if Dist(head, queue[n - 1].sector) < Dist(head, queue[k].sector) then n - 1 else k
  }

  /** The request dispatched next: the oldest one as long as no sector has been visited, later the nearest. */
  function Pick(queue: seq<Request>, prev: int): (k: nat)
    requires queue != []
    ensures k < |queue|
  {
    if prev > -1 then NearestOf(queue, prev, |queue|) else 0
  }

  /** Before the first dispatch the oldest request is taken, afterwards the oldest of the nearest, and no other. */
  lemma PickIs(queue: seq<Request>, prev: int, k: nat)
    requires k < |queue|
    ensures Pick(queue, prev) == k <==>
            if prev < 0 then k == 0
            else forall j :: 0 <= j < |queue| ==>
                   var d, other := Dist(prev, queue[k].sector), Dist(prev, queue[j].sector);
                   if j < k then d < other else d <= other
  {
    var p := Pick(queue, prev);
    assert p < |queue|;
  }

  function Without(queue: seq<Request>, k: nat): seq<Request>
    requires k < |queue|
  {
    queue[..k] + queue[k + 1..]
  }

  /** The order in which a queue is served if nothing arrives meanwhile. */
  function DrainOrder(queue: seq<Request>, prev: int): seq<Request>
    decreases |queue|
  {
    if queue == [] then []
    else
      var k := Pick(queue, prev);
      [queue[k]] + DrainOrder(Without(queue, k), queue[k].sector)
  }

  class Scheduler {
    var queue: seq<Request>
    var prevSector: int

    constructor ()
      ensures queue == [] && prevSector == -1
    {
      queue, prevSector := [], -1;
    }

    method AddRequest(rq: Request)
      modifies this
      ensures queue == old(queue) + [rq] && prevSector == old(prevSector)
    {
      queue := queue + [rq];
    }

    /** The scan for the nearest request; no result means that the queue is empty. */
    method ShortestDistanceRequest() returns (found: bool, shortest: nat)
      ensures found == (queue != [])
      ensures found ==> shortest == Pick(queue, prevSector)
    {
      found, shortest := queue != [], 0;
      if prevSector > -1 && found {
        var distance := Dist(prevSector, queue[0].sector);
        var cursor := 0;
        while cursor < |queue|
          invariant 0 <= cursor <= |queue| && shortest < |queue|
          invariant distance == Dist(prevSector, queue[shortest].sector)
          invariant if cursor == 0 then shortest == 0 else shortest == NearestOf(queue, prevSector, cursor)
        {
          var cursorDistance := Dist(prevSector, queue[cursor].sector);
          if cursorDistance < distance {
            distance, shortest := cursorDistance, cursor;
          }
          cursor := cursor + 1;
        }
      }
    }

    method Dispatch() returns (ok: bool, rq: Request)
      modifies this
      ensures ok == (old(queue) != [])
      ensures !ok ==> queue == old(queue) && prevSector == old(prevSector)
      ensures ok ==> var k := Pick(old(queue), old(prevSector));
                     rq == old(queue)[k] && queue == Without(old(queue), k) && prevSector == rq.sector
    {
      rq := Request(0, 0);
      var k;
      ok, k := ShortestDistanceRequest();
      if ok {
        rq := queue[k];
        prevSector := rq.sector;
        queue := queue[..k] + queue[k + 1..];
      }
    }

    /** The elevator core dispatching until the scheduler has nothing left. */
    method Drain() returns (served: seq<Request>)
      modifies this
      ensures served == DrainOrder(old(queue), old(prevSector)) && queue == []
      ensures multiset(served) == multiset(old(queue))
    {
      served := [];
      ghost var all := DrainOrder(queue, prevSector);
      DrainServesAll(queue, prevSector);
      while true
        invariant served + DrainOrder(queue, prevSector) == all
        decreases |queue|
      {
        ghost var before, head := queue, prevSector;
        var ok, rq := Dispatch();
        if !ok {
          break;
        }
        DrainStep(before, head, served);
        served := served + [rq];
      }
    }
  }

  lemma DrainStep(queue: seq<Request>, prev: int, served: seq<Request>)
    requires queue != []
    ensures var k := Pick(queue, prev);
            served + DrainOrder(queue, prev)
            == (served + [queue[k]]) + DrainOrder(Without(queue, k), queue[k].sector)
  {
  }

  lemma WithoutOne(queue: seq<Request>, k: nat)
    requires k < |queue|
    ensures multiset(queue) == multiset{queue[k]} + multiset(Without(queue, k))
  {
    assert queue == queue[..k] + ([queue[k]] + queue[k + 1..]);
  }

  /** Every queued request is served exactly once. */
  lemma {:induction false} DrainServesAll(queue: seq<Request>, prev: int)
    ensures multiset(DrainOrder(queue, prev)) == multiset(queue)
    decreases |queue|
  {
    if queue != [] {
      var k := Pick(queue, prev);
      DrainServesAll(Without(queue, k), queue[k].sector);
      WithoutOne(queue, k);
    }
  }

  // ---------------------------------------------------------------------------------------------------------
  // Head movement
  // ---------------------------------------------------------------------------------------------------------

  function Movement(head: int, served: seq<Request>): nat
    decreases |served|
  {
    if served == [] then 0 else Dist(head, served[0].sector) + Movement(served[0].sector, served[1..])
  }

  /** The interval the head has covered: it stands at one end, and `lo == hi` before it has moved. */
  datatype Covered = Covered(head: int, lo: int, hi: int) {
    predicate Valid() {
      lo <= hi && (head == lo || head == hi)
    }

    function Visit(y: int): Covered {
      Covered(y, if y < lo then y else lo, if y > hi then y else hi)
    }

    /** The move to y turns round and crosses everything covered so far. */
    predicate Crosses(y: int) {
      lo < hi && ((head == hi && y < lo) || (head == lo && y > hi))
    }
  }

  /** No unserved request lies strictly inside the covered interval, nor at the end away from the head. */
  ghost predicate Outside(queue: seq<Request>, a: Covered) {
    forall j :: 0 <= j < |queue| ==> queue[j].sector == a.head || queue[j].sector < a.lo || queue[j].sector > a.hi
  }

  /** Every crossing from here on is at least d long. */
  ghost predicate CrossingsAtLeast(queue: seq<Request>, a: Covered, d: nat) {
    (d > 0 ==> a.lo < a.hi)
    && forall j :: 0 <= j < |queue| && a.Crosses(queue[j].sector) ==> Dist(a.head, queue[j].sector) >= d
  }

  /** The bound for the crossing after a move to y: twice the move if it crosses. */
  function NextBound(a: Covered, y: int, d: nat): nat {
    if a.Crosses(y) then 2 * Dist(a.head, y) else d
  }

  /** One dispatch keeps the picture: requests stay outside the covered interval, and after a crossing the next
      one is at least twice as long. */
  lemma DispatchKeepsOutside(queue: seq<Request>, a: Covered, d: nat)
    requires queue != [] && a.Valid() && a.head >= 0 && Outside(queue, a) && CrossingsAtLeast(queue, a, d)
    ensures var k := Pick(queue, a.head);
            var y := queue[k].sector;
            && a.Visit(y).Valid()
            && Outside(Without(queue, k), a.Visit(y))
            && CrossingsAtLeast(Without(queue, k), a.Visit(y), NextBound(a, y, d))
            && (a.Crosses(y) ==> Dist(a.head, y) >= d)
  {
    var k := Pick(queue, a.head);
    var y := queue[k].sector;
    var rest, b := Without(queue, k), a.Visit(y);
    forall j | 0 <= j < |rest|
      ensures rest[j].sector == b.head || rest[j].sector < b.lo || rest[j].sector > b.hi
      ensures b.Crosses(rest[j].sector) ==> Dist(b.head, rest[j].sector) >= NextBound(a, y, d)
    {
      var i := if j < k then j else j + 1;
      assert rest[j] == queue[i];
      assert Dist(a.head, y) <= Dist(a.head, queue[i].sector);
    }
  }

  /** All sectors of the queue lie between lo and hi. */
  ghost predicate Within(queue: seq<Request>, lo: int, hi: int) {
    forall j :: 0 <= j < |queue| ==> lo <= queue[j].sector <= hi
  }

  lemma WithoutWithin(queue: seq<Request>, k: nat, lo: int, hi: int)
    requires k < |queue| && Within(queue, lo, hi)
    ensures Within(Without(queue, k), lo, hi) && lo <= queue[k].sector <= hi
  {
  }

  /** What is still to come: the part of the span not yet covered, and the crossings, whose lengths at least
      double and so add up to less than twice the span. */
  lemma {:induction false} RemainingMovement(queue: seq<Request>, a: Covered, d: nat, lo: int, hi: int)
    requires a.Valid() && a.head >= 0 && Outside(queue, a) && CrossingsAtLeast(queue, a, d)
    requires lo <= a.lo && a.hi <= hi && Within(queue, lo, hi) && d <= 2 * (hi - lo)
    ensures Movement(a.head, DrainOrder(queue, a.head)) <= 3 * (hi - lo) - (a.hi - a.lo) - d
    decreases |queue|
  {
    if queue != [] {
      var k := Pick(queue, a.head);
      var y, rest := queue[k].sector, Without(queue, k);
      DispatchKeepsOutside(queue, a, d);
      WithoutWithin(queue, k, lo, hi);
      assert DrainOrder(queue, a.head)[1..] == DrainOrder(rest, y);
      RemainingMovement(rest, a.Visit(y), NextBound(a, y, d), lo, hi);
    }
  }

  /** From a known head position, draining any queue moves the head at most three times across the span of the
      head and all requested sectors. */
  lemma DrainMovement(queue: seq<Request>, head: nat, lo: int, hi: int)
    requires lo <= head <= hi && Within(queue, lo, hi)
    ensures Movement(head, DrainOrder(queue, head)) <= 3 * (hi - lo)
  {
    RemainingMovement(queue, Covered(head, head, head), 0, lo, hi);
  }

  /** Before the first dispatch the head position is unknown; from the sector served first on, the same bound
      holds. */
  lemma FirstDrainMovement(queue: seq<Request>, lo: int, hi: int)
    requires queue != [] && Within(queue, lo, hi)
    ensures var served := DrainOrder(queue, -1);
            served[0] == queue[0] && Movement(served[0].sector, served[1..]) <= 3 * (hi - lo)
  {
    DrainMovement(queue[1..], queue[0].sector, lo, hi);
    assert Without(queue, 0) == queue[1..];
  }

  /** The lengths of the moves that cross everything covered before them. */
  function Crossings(a: Covered, served: seq<Request>): seq<nat>
    decreases |served|
  {
    if served == [] then []
    else
      var y := served[0].sector;
      (if a.Crosses(y) then [Dist(a.head, y)] else []) + Crossings(a.Visit(y), served[1..])
  }

  ghost predicate Doubling(lengths: seq<nat>, d: nat) {
    && (lengths != [] ==> lengths[0] >= d)
    && forall i :: 0 < i < |lengths| ==> lengths[i] >= 2 * lengths[i - 1]
  }

  lemma {:induction false} CrossingsDouble(queue: seq<Request>, a: Covered, d: nat)
    requires a.Valid() && a.head >= 0 && Outside(queue, a) && CrossingsAtLeast(queue, a, d)
    ensures Doubling(Crossings(a, DrainOrder(queue, a.head)), d)
    decreases |queue|
  {
    if queue != [] {
      var k := Pick(queue, a.head);
      var y := queue[k].sector;
      DispatchKeepsOutside(queue, a, d);
      assert DrainOrder(queue, a.head)[1..] == DrainOrder(Without(queue, k), y);
      CrossingsDouble(Without(queue, k), a.Visit(y), NextBound(a, y, d));
      var later := Crossings(a.Visit(y), DrainOrder(Without(queue, k), y));
      if a.Crosses(y) {
        assert Crossings(a, DrainOrder(queue, a.head)) == [Dist(a.head, y)] + later;
      } else {
        assert Crossings(a, DrainOrder(queue, a.head)) == later;
      }
    }
  }

  function Pow2(n: nat): nat {
    if n == 0 then 1 else 2 * Pow2(n - 1)
  }

  lemma {:induction false} DoublingGrows(lengths: seq<nat>, i: nat)
    requires Doubling(lengths, 1) && i < |lengths|
    ensures lengths[i] >= Pow2(i)
  {
    if i > 0 {
      DoublingGrows(lengths, i - 1);
    }
  }

  ghost predicate AllWithin(lengths: seq<nat>, span: int) {
    forall i :: 0 <= i < |lengths| ==> 1 <= lengths[i] <= span
  }

  lemma AllWithinConcat(a: seq<nat>, b: seq<nat>, span: int)
    requires AllWithin(a, span) && AllWithin(b, span)
    ensures AllWithin(a + b, span)
  {
  }

  lemma {:induction false} CrossingsWithin(queue: seq<Request>, a: Covered, lo: int, hi: int)
    requires lo <= a.lo <= a.hi <= hi && lo <= a.head <= hi && Within(queue, lo, hi)
    ensures AllWithin(Crossings(a, DrainOrder(queue, a.head)), hi - lo)
    decreases |queue|
  {
    if queue != [] {
      var k := Pick(queue, a.head);
      var y, rest := queue[k].sector, Without(queue, k);
      WithoutWithin(queue, k, lo, hi);
      assert DrainOrder(queue, a.head)[1..] == DrainOrder(rest, y);
      CrossingsWithin(rest, a.Visit(y), lo, hi);
      var first := if a.Crosses(y) then [Dist(a.head, y)] else [];
      AllWithinConcat(first, Crossings(a.Visit(y), DrainOrder(rest, y)), hi - lo);
    }
  }

  /** While a queue is drained, each reversal's crossing move is at least twice the previous one, so that their
      number is at most logarithmic in the span. */
  lemma Reversals(queue: seq<Request>, head: nat, lo: int, hi: int)
    requires lo <= head <= hi && Within(queue, lo, hi)
    ensures var lengths := Crossings(Covered(head, head, head), DrainOrder(queue, head));
            Doubling(lengths, 0) && (lengths != [] ==> Pow2(|lengths| - 1) <= hi - lo)
  {
    var a := Covered(head, head, head);
    CrossingsDouble(queue, a, 0);
    CrossingsWithin(queue, a, lo, hi);
    LastOfDoubling(Crossings(a, DrainOrder(queue, head)), hi - lo);
  }

  lemma LastOfDoubling(lengths: seq<nat>, span: int)
    requires Doubling(lengths, 0) && AllWithin(lengths, span)
    ensures lengths != [] ==> Pow2(|lengths| - 1) <= span
  {
    if lengths != [] {
      assert 1 <= lengths[0];
      DoublingGrows(lengths, |lengths| - 1);
      assert lengths[|lengths| - 1] <= span;
    }
  }

  /** The state after the first n dispatches: what was covered and what is left. */
  function CoveredAfter(queue: seq<Request>, a: Covered, n: nat): (Covered, seq<Request>)
    decreases n
  {
    if n == 0 || queue == [] then (a, queue)
    else
      var k := Pick(queue, a.head);
      CoveredAfter(Without(queue, k), a.Visit(queue[k].sector), n - 1)
  }

  lemma {:induction false} StaysOutside(queue: seq<Request>, a: Covered, n: nat)
    requires a.Valid() && a.head >= 0 && Outside(queue, a)
    ensures var r := CoveredAfter(queue, a, n); r.0.Valid() && Outside(r.1, r.0)
    decreases n
  {
    if n != 0 && queue != [] {
      DispatchKeepsOutside(queue, a, 0);
      var k := Pick(queue, a.head);
      StaysOutside(Without(queue, k), a.Visit(queue[k].sector), n - 1);
    }
  }

  /** At every moment of a drain the unserved requests lie outside the interval served so far. */
  lemma UnservedOutside(queue: seq<Request>, head: nat, n: nat)
    ensures var r := CoveredAfter(queue, Covered(head, head, head), n); r.0.Valid() && Outside(r.1, r.0)
  {
    StaysOutside(queue, Covered(head, head, head), n);
  }
}
