/** The mutex object of T3/pmutex.c and the statements its threads execute on it in place.

    The node list and the slot list are prepended to by `Add`; `Advance` executes the next statement of one
    thread, and `Execute` an arbitrary interleaving of statements.  They are proved against the step system of
    module FilterLock, whose theorems then hold of the object.
 */
module PMutex {
  import opened FilterLock

  datatype PNode = PNode(level: nat, owner: int)

  class Mutex {
    var size: nat
    var onhold: seq<int>    // the owner in each sacrifice slot, the slot of level 1 first
    var pnode: seq<PNode>   // the registered threads, the last one added first
    var pc: seq<Pc>         // where each registered thread stands

    ghost predicate Valid()
      reads this
    {
      size == |pnode| == |onhold| == |pc| && WellFormed(View())
    }

    ghost function View(): State
      reads this
    {
      State(seq(|pnode|, k requires 0 <= k < |pnode| reads this => pnode[k].owner),
            seq(|pnode|, k requires 0 <= k < |pnode| reads this => pnode[k].level),
            onhold, pc)
    }

    constructor ()
      ensures Valid() && size == 0 && Initial(View())
    {
      size, onhold, pnode, pc := 0, [], [], [];
    }

    /** Registers a thread: a node and a slot are put in front of the two lists, whatever they contain; `content` is
        what the new slot happens to hold.  An idle mutex stays idle if the thread was not registered before. */
    method Add(owner: int, content: int)
      modifies this
      ensures size == old(size) + 1 && pc == [Outside] + old(pc)
      ensures pnode == [PNode(0, owner)] + old(pnode) && onhold == [content] + old(onhold)
      ensures View().owner == [owner] + old(View().owner) && View().level == [0] + old(View().level)
      ensures old(Valid() && Initial(View()) && owner !in View().owner) ==> Valid() && Initial(View())
    {
      var before := pnode;
      pnode := [PNode(0, owner)] + pnode;
      onhold := [content] + onhold;
      pc := [Outside] + pc;
      size := size + 1;
      assert forall k :: 0 < k < |pnode| ==> pnode[k] == before[k - 1];
      assert View().owner == [owner] + old(View().owner);
      assert View().level == [0] + old(View().level);
    }

    /** The walk with which `lock` and `unlock` find the caller's own node; the result is `size` for a thread
        that was never registered. */
    method FindNode(me: int) returns (k: nat)
      requires Valid()
      ensures k <= size
      ensures k < size ==> pnode[k].owner == me
      ensures k == size <==> me !in View().owner
      ensures forall t :: 0 <= t < size && View().owner[t] == me ==> t == k
    {
      k := 0;
      while k < |pnode|
        invariant k <= |pnode|
        invariant forall j :: 0 <= j < k ==> View().owner[j] != me
      {
        if pnode[k].owner == me {
          assert View().owner[k] == me;
          return;
        }
        k := k + 1;
      }
    }

    /** Executes the next statement of thread t. */
    method Advance(t: nat)
      requires Valid() && t < size
      modifies this
      ensures Valid() && size == old(size)
      ensures View() == Step(old(View()), t)
    {
      var me := pnode[t].owner;
      match pc[t] {
        case Outside =>
          pc := pc[t := EnterLevel(size, 1)];
        case StoreLevel(i) =>
          pnode := pnode[t := pnode[t].(level := i)];
          pc := pc[t := StoreSlot(i)];
        case StoreSlot(i) =>
          onhold := onhold[i - 1 := me];
          pc := pc[t := Test(i, true)];
        case Test(i, flg) =>
          if onhold[i - 1] == me && flg {
            pc := pc[t := Scan(i, 0)];
          } else {
            pc := pc[t := EnterLevel(size, i + 1)];
          }
        case Scan(i, j) =>
          if j == size {
            pc := pc[t := Test(i, false)];
          } else if pnode[j].owner == me {
            pc := pc[t := Scan(i, j + 1)];
          } else if pnode[j].level >= i {
            pc := pc[t := Test(i, true)];
          } else {
            pc := pc[t := Scan(i, j + 1)];
          }
        case Holding =>
          pnode := pnode[t := pnode[t].(level := 0)];
          pc := pc[t := Outside];
      }
      assert View().owner == old(View().owner);
      assert View().level == Step(old(View()), t).level;
    }

    /** Any interleaving of the registered threads, started on an idle mutex, keeps mutual exclusion. */
    method Execute(schedule: seq<nat>)
      requires Valid() && Initial(View())
      modifies this
      ensures Valid() && View() == Run(old(View()), schedule)
      ensures forall t, u :: 0 <= t < size && 0 <= u < size && pc[t] == Holding && pc[u] == Holding ==> t == u
    {
      ghost var start := View();
      var k := 0;
      while k < |schedule|
        invariant 0 <= k <= |schedule|
        invariant Valid() && View() == Run(start, schedule[..k])
      {
        RunAppend(start, schedule[..k], [schedule[k]]);
        assert schedule[..k + 1] == schedule[..k] + [schedule[k]];
        assert Run(StepOrIdle(View(), schedule[k]), []) == StepOrIdle(View(), schedule[k]);
        assert [schedule[k]][1..] == [];
        if schedule[k] < size {
          Advance(schedule[k]);
        }
        k := k + 1;
      }
      assert schedule[..k] == schedule;
      RunKeepsInv(start, schedule);
      forall t, u | 0 <= t < size && 0 <= u < size && pc[t] == Holding && pc[u] == Holding ensures t == u {
        HolderIsUnique(View(), t, u);
      }
    }
  }
}
