# Verified models of the kernel-lab repository

The repository builds a small Linux system with Buildroot and adds to it the exercises of an operating systems course:
a mutex of its own making and a program that runs threads under it, a disk scheduler, and drivers.  This project models
four parts of it in Dafny and proves what they are for.

* **The filter lock** (`T3/pmutex.c`, `T3/thread_runner.c`).  `lock` is Peterson's algorithm for n threads.
  `FilterLock` is the step system, with one shared read or write per step, and has the safety of finite runs;
  `FairLock` has infinite runs and starvation freedom; `PMutex` is the mutex object on which the steps are executed in
  place; `ThreadRunner` is the program whose threads fill one buffer under the lock, and `FairRunner` shows that every
  fair run of it ends.
* **The tristate expression simplifier** of the Kconfig tools (`support/kconfig/expr.c`, used by `menu.c`).  `KExpr` has
  the three-valued meaning of expressions, and `KTransform`, `KEliminate`, `KDups` and `KMenu` the rewriting functions
  with what each keeps of that meaning.  `KComplete`, `KEqual` and `KContradict` have the other direction: what the
  rewriting is sure to find, operand by operand.
  `ExprNode`, `ExprPasses` and `ExprDups` overwrite linked nodes in place and are proved against these functions.
* **Symbol values, cycles, `.config` text and menus** (`symbol.c`, `confdata.c`, `menu.c`).  `SymCalc` has the
  value of one symbol, `SymValues` the values of all: when they are consistent with the user's choices and with each
  other, and what setting a value makes of them; `SymExamples` has the surprises, and `SymTable` the memoised
  calculation in place.  `CycleCheck` is the search for dependency cycles; `ConfText` writes and reads lines of
  `.config`; `MenuTree` has the walk over the linked menu entries, `MenuFinalize` the rearrangement of the tree,
  `KSubmenu` what it means with the tests of `KMenu`, `KImplied` when these tests are wrong, and `MenuLinks` does the
  same on the links, in place.
* **Two cores with arithmetic bounds**: `Sstf`, the shortest-seek-time-first scheduler, and `Crc`, the table-driven
  CRC-32 of `mkpimage` over the generic register algebra of `Lfsr` (generator polynomial 0x04C11DB7, section 3.2.9 of
  IEEE 802.3).

`dafny verify dfyconfig.toml` checks everything.

## Conventions

Tristate values are the integers 0 (n), 1 (m) and 2 (y).  A *configuration* (`KExpr.Cfg`) gives every symbol a value
that `sym_calc_value` can leave behind: a boolean symbol is never m, and m occurs only while modules are enabled.
In `SymCalc`, `SymValues` and `SymTable`, where `modules_val` changes, stored values are a configuration that may have
m, and what a calculation takes from `MODULES` is a parameter of its own: `modules_val`, and whether n is stored for
`MODULES`, so that m is read as n.  `SymValues.StableIsConfiguration` ties the two.  Dependency cycles there are cycles
of all that is asked for, direct dependencies included; `SymCalc.GraphIsChecked` says when these are the ones that
`CycleCheck` looks for.
Symbols are compared by structural equality, which stands for the pointer equality of the symbol table.  In the
functions on values a pointer into an expression tree is a path from its root, so that `e1 == e2` is equality of paths,
not of shape; in the methods on nodes it is equality of references, and `ExprDups.SameNode` relates the two.  An
expression that is absent is `None`, and evaluates to y.

In the step system a schedule is a finite or infinite sequence of thread numbers; every theorem about runs is about all
schedules, and about all fair ones where something is to happen in the end: a thread inside `lock` or holding the lock
takes another step some time, and one that is outside need not call again.  Memory is sequentially consistent, and the
set of threads is fixed before the first `lock`, as the `start_ths` gate has it.

## Where the code is not what it promises

* `expr_eliminate_dups2` moves m: a contradiction such as `(A || n) && !A` is replaced by n, although its value is m where
  A is m.  Every definite value is kept (`KDups.EliminateDupsRefines`), a single replacement keeps the value if and only
  if the value is not m (`KDups.ZeroRefines`), and `KDups.EliminateDupsMovesM` has the example.
* `expr_trans_compare` passes through a negation by flipping the comparison.  That is right if and only if the operand of
  the negation is not m (`KMenu.TransCompareOfNot`).  The automatic submenus inherit this, on the side of the entry only:
  `KMenu.ImpliedNeedsDefinite` has an entry that is moved below a parent although it can be visible while the parent is
  not.  `KImplied.ImpliedFailsExactly` says for which entries there is such a parent.
* Comparison with m is pushed down only as far as the first AND or OR, where it is right if and only if the value is n;
  below a negation of a symbol it is always wrong (`KMenu.TransCompareMod`).
* `expr_trans_bool` turns a value y into m for a comparison `!= n` of a tristate symbol, if and only if the symbol is m
  (`KMenu.TransBoolOfCmp`); an expression keeps its value where no symbol compared is m (`KMenu.TransBoolExact`).
  Otherwise only "not n" is kept, and only for expressions in the form that `expr_transform` produces
  (`KMenu.TransBoolNeedsNormal`).
* After the recursion into the second expression, `expr_eliminate_dups2` has no `return`: the first operand is compared
  with the whole node as well.  The model does the same, and the result is the same guarantee.
* Every tristate symbol depends on `MODULES` behind the back of the dependency check.  A table without cycles may have no
  stable values at all (`SymExamples.NoStableConfiguration`): `modules_val` flips with every recalculation.  There are
  stable values if and only if a recalculation with modules on leaves `MODULES` not n, or one with modules off leaves it
  n (`SymValues.StableExists`), and so always if it depends on no tristate symbol (`SymValues.StableWithoutTristate`).
* An m is read as n as long as n is stored for `MODULES`, which is so while the default of `MODULES` is looked at.  By
  this alone `modules_val` may flip for ever (`SymExamples.ReadAsN`).  The simplifier keeps values only as they are read
  otherwise (`SymExamples.JoinedWhileReadAsN`).
* `sym_set_tristate_value` can accept a value that the recalculation does not yield: because this changes `modules_val`
  (`SymExamples.AcceptedButLost`), or because the last one did, and the symbol still has its visibility from before
  (`SymExamples.KeptRangeIsOld`).  From stable values it does yield it (`SymValues.SetThenCalc`), and
  `SymValues.AcceptedIsYielded` says exactly when it does otherwise.
* `sym_set_tristate_value` accepts a value equal to the current one without looking at the range.
  `SymExamples.SetAgainLost` has a value that is lost in this way, and `SymValues.SetSameThenCalc` says exactly when it
  lasts.
* The dependency check does not read `dir_dep`, which `sym_calc_visibility` evaluates.
* Thread names stop being characters: the name of an id is decoded to that id if and only if the id is at most 55
  (`ThreadRunner.NameRoundTrip`).

## Model

| member | source | states |
|---|---|---|
| `FilterLock.RunKeepsInv` | T3/pmutex.c:29-69 | in every run of n threads, interleaved read by read and write by write, each level whose slot was written still has its last writer, and whoever that writer has scanned below the level is still below it |
| `FilterLock.WriterStays` | T3/pmutex.c:31-51 | a step cannot take the last writer of a slot away while another thread that wrote the slot remains |
| `FilterLock.ClearedStays` | T3/pmutex.c:35-50 | what the last writer saw in its partial scan stays true: a thread that comes to the level later writes the slot |
| `FilterLock.OneIsHeldBack` | T3/pmutex.c:31-51 | at each level one of the threads that got there is held back, unless there is only one |
| `FilterLock.FilterBound` | T3/pmutex.c:31-51 | in every reachable state at most n - j threads have passed the wait of level j |
| `FilterLock.MutualExclusion` | T3/pmutex.c:29-69 | in every reachable state at most one thread is between the return of `lock` and the level store of `unlock` |
| `FilterLock.SoloExit` | T3/pmutex.c:35-50 | a thread whose wait condition can become false leaves the wait when it runs alone, and changes nothing else |
| `FilterLock.SomeWaitEnds` | T3/pmutex.c:31-51 | if all threads inside `lock` are at their waits, some wait condition is false: no state is stuck |
| `FilterLock.SomeoneGetsIn` | T3/pmutex.c:29-53 | with the lock free and threads competing for it, steps of competitors alone lead one of them in |
| `FilterLock.DeadlockFreedom` | T3/pmutex.c:29-69 | the same after any run from the initial state |
| `FairLock.WaitEnds` | T3/pmutex.c:35-50 | in a fair infinite run, a wait whose condition stays false whenever it is looked at comes to its end |
| `FairLock.NotSacrificedLeaves` | T3/pmutex.c:35-50 | a thread whose slot names somebody else, from some time on, leaves the level |
| `FairLock.LevelIsLeft` | T3/pmutex.c:31-51 | in every fair infinite run each thread leaves each level |
| `FairLock.StarvationFreedom` | T3/pmutex.c:29-53 | in every fair infinite run, each thread that has called `lock` comes to hold it, however often others call |
| `PMutex.Mutex.constructor` | T3/pmutex.c:70-76 | `pmutex_create` makes an idle mutex without threads |
| `PMutex.Mutex.Add` | T3/pmutex.c:77-97 | `pmutex_add` puts a node with level 0 and a slot in front of the two lists, whatever they hold, and changes nothing else; an idle mutex stays idle |
| `PMutex.Mutex.FindNode` | T3/pmutex.c:18-27 | the walk finds the one node of the calling thread, or ends behind the list for a thread that was not added |
| `PMutex.Mutex.Advance` | T3/pmutex.c:29-69 | each statement executed on the nodes and slots in place is one step of the step system |
| `PMutex.Mutex.Execute` | T3/pmutex.c:29-69 | executing any schedule on the object is the run of the step system, and keeps mutual exclusion |
| `ThreadRunner.NameRoundTrip` | T3/thread_runner.c:200-213 | name and id are inverse exactly for ids up to 55 |
| `ThreadRunner.NamesAreLetters` | T3/thread_runner.c:200-213 | the names are the capital letters and then the small ones from b on, up to id 50 |
| `ThreadRunner.ProgRunKeepsInv` | T3/thread_runner.c:226-261 | in every interleaving the cells before the shared pointer hold the names of their single writers, the others are still NUL, and only the lock holder is between the test and the increment of the pointer |
| `ThreadRunner.FinishedRun` | T3/thread_runner.c:235-261 | when all threads have exited, every cell but the last was written exactly once, in order, the final NUL is untouched, and the number of writes of each thread is the number of its names in the buffer |
| `ThreadRunner.CanAlwaysFinish` | T3/thread_runner.c:226-261 | whatever has happened so far, some continuation lets all threads fill the buffer and exit: no run gets stuck |
| `FairRunner.LockIsFair` | T3/thread_runner.c:226-261 | in a fair run of the program the lock is used fairly: holders go on to `unlock` |
| `FairRunner.VisitCounts` | T3/thread_runner.c:229-257 | every visit to the critical section ends with the pointer moved on or the thread gone |
| `FairRunner.EveryFairRunEnds` | T3/thread_runner.c:226-261 | every fair run of the program ends: after finitely many steps all threads have exited |
| `FairRunner.RoundRobinIsFair` | T3/thread_runner.c:226-261 | taking turns is fair, so there are such runs |
| `ThreadRunner.OccurrencesCountWrites` | T3/thread_runner.c:267-288 | counting decoded names counts the writes of each id |
| `ThreadRunner.PostProcessing` | T3/thread_runner.c:267-288 | the counts are the occurrences of every id in the buffer, they sum to `buff_size - 1`, and the sequence buffer is the buffer without adjacent repeats |
| `ThreadRunner.FinishedBufferFits` | T3/thread_runner.c:267-288 | for up to 56 threads what a finished run leaves in the buffer is fit for the post-processing, and correct counts are the numbers of stores |
| `ThreadRunner.CountRun` | T3/thread_runner.c:390-395 | the whole program, in any interleaving of up to 56 threads: the counts are the numbers of stores of the threads, they sum to the length of the text, and the sequence is the order of the stores without adjacent repeats |
| `ThreadRunner.Record` | T3/thread_runner.c:277-287 | one character: appended unless it repeats the last one, with the buffer doubled when full |
| `ThreadRunner.CollapsedUnique` | T3/thread_runner.c:277-285 | there is only one way to remove adjacent repeats, so the result is determined by the text |
| `ThreadRunner.Register` | T3/thread_runner.c:357-373 | the registration loop ends in an idle mutex that knows each of the n threads once |
| `KTransform.Transform` | buildroot-vkernel/support/kconfig/expr.c:636-771 | `expr_transform` ends: the weight never grows, and falls across the De Morgan rewriting |
| `KTransform.TransformKeepsValue` | buildroot-vkernel/support/kconfig/expr.c:636-771 | `expr_transform` keeps the value in every configuration |
| `KTransform.TransformNormal` | buildroot-vkernel/support/kconfig/expr.c:636-771 | negation is left only on symbols other than y, m, n, and no boolean symbol is compared with y, m, n |
| `KTransform.TransformIdempotent` | buildroot-vkernel/support/kconfig/expr.c:636-771 | a second application changes nothing; exactly the expressions in normal form are left alone |
| `KEliminate.EliminateYnExact` | buildroot-vkernel/support/kconfig/expr.c:231-312 | constant elimination keeps the value |
| `KEliminate.EliminateYnShrinks` | buildroot-vkernel/support/kconfig/expr.c:231-312 | no y or n operand is left, and the tree shrinks exactly if there was one |
| `KEliminate.ElimEqSplits` | buildroot-vkernel/support/kconfig/expr.c:130-162 | throughout the elimination both sides are their remainder joined with one and the same common part |
| `KEliminate.ExprEqSound` | buildroot-vkernel/support/kconfig/expr.c:189-229 | `expr_eq` says yes only for expressions of equal value in every configuration |
| `KEliminate.ElimEqReflects` | buildroot-vkernel/support/kconfig/expr.c:130-162 | if the remainder of one side is below the remainder of the other, so were the two sides |
| `KEliminate.EliminateEqImplies` | buildroot-vkernel/support/kconfig/expr.c:164-184 | if both phases of `expr_eliminate_eq` leave y of the second expression, the first implies it |
| `KEliminate.ExtractEqExact` | buildroot-vkernel/support/kconfig/expr.c:826-875 | factoring is exact: each expression is its remainder joined with the extracted part |
| `KContradict.ExtractEqComplete` | buildroot-vkernel/support/kconfig/expr.c:848-875 | nothing common is left behind: no operand of one remainder equals an operand of the other, except for the unit that stands for what was taken out |
| `KContradict.OneIsTaken` | buildroot-vkernel/support/kconfig/expr.c:848-875 | an operand that equals one of the other expression is taken out, and one that does not stays, with everything else as it was |
| `KContradict.AllAreTaken` | buildroot-vkernel/support/kconfig/expr.c:848-875 | if all operands of the first expression occur in the second, each with a partner of its own, none is left of the first |
| `KDups.JoinIsExact` | buildroot-vkernel/support/kconfig/expr.c:346-502 | every rule that joins two operands yields exactly their joint value, in every configuration |
| `KDups.JoinFinds` | buildroot-vkernel/support/kconfig/expr.c:346-502 | exactly which comparisons of one symbol are joined under OR and under AND, with each other and with the symbol |
| `KDups.JoinFindsNegations` | buildroot-vkernel/support/kconfig/expr.c:346-502 | exactly which negations of a symbol or of a comparison of it are joined, and with what |
| `KDups.JoinKeepsShape` | buildroot-vkernel/support/kconfig/expr.c:346-502 | a joined operand is no larger than the first, keeps the normal form, and is not itself a node of the operator |
| `KDups.Dups1Exact` | buildroot-vkernel/support/kconfig/expr.c:504-554 | the first pass of duplicate removal keeps the value in every configuration |
| `KDups.Dups1Shape` | buildroot-vkernel/support/kconfig/expr.c:504-554 | without a counted rewrite the first pass changes nothing; with one it leaves y or n on the spine; it keeps the normal form |
| `KDups.ZeroRefines` | buildroot-vkernel/support/kconfig/expr.c:575-602 | replacing a contradicted operand keeps every definite value, and the value itself if and only if that is not m |
| `KDups.Dups2Refines` | buildroot-vkernel/support/kconfig/expr.c:556-610 | the second pass keeps every definite value |
| `KDups.Dups2Shape` | buildroot-vkernel/support/kconfig/expr.c:556-610 | without a counted rewrite the second pass changes nothing; with one it leaves y or n on the spine; it keeps the normal form |
| `KDups.TurnShrinks` | buildroot-vkernel/support/kconfig/expr.c:619-632 | a turn of the loop that counts a rewrite ends in a smaller tree, so the loop ends |
| `KDups.EliminateDupsRefines` | buildroot-vkernel/support/kconfig/expr.c:612-634 | in every configuration where the input is y or n, the output has the same value |
| `KDups.EliminateDupsFixpoint` | buildroot-vkernel/support/kconfig/expr.c:612-634 | the result is no larger, stays in normal form, and neither pass has anything left to do in it |
| `KDups.EliminateDupsExact` | buildroot-vkernel/support/kconfig/expr.c:612-634 | where no symbol standing alone is m, the value is kept outright |
| `KDups.EliminateDupsMovesM` | buildroot-vkernel/support/kconfig/expr.c:576-587 | the counterexample to exactness at m |
| `KComplete.ElimEqComplete` | buildroot-vkernel/support/kconfig/expr.c:130-162 | after the elimination no operand of one side equals an operand of the other, y and n aside |
| `KComplete.ElimEqIsAllAgainst` | buildroot-vkernel/support/kconfig/expr.c:130-162 | the recursion over two trees compares every operand of the one with every operand of the other, in order, and leaves the arrangement of the trees out of account |
| `KComplete.ExprEqReflexive` | buildroot-vkernel/support/kconfig/expr.c:189-229 | `expr_eq` says yes for every expression and itself |
| `KComplete.ConjunctIsEliminated` | buildroot-vkernel/support/kconfig/expr.c:164-184 | of a conjunction that contains the second expression, `expr_eliminate_eq` leaves y of the second: the submenu test succeeds |
| `KComplete.EliminateEqComplete` | buildroot-vkernel/support/kconfig/expr.c:164-184 | after each of the two phases no operand of one side equals an operand of the other under the operator of that phase, y and n aside |
| `KComplete.NotTaken` | buildroot-vkernel/support/kconfig/expr.c:130-162 | an operand of the second expression that no operand of the first equals stays |
| `KComplete.AllTaken` | buildroot-vkernel/support/kconfig/expr.c:130-162 | if each operand of the second expression equals one of the first, with a partner of its own, all of them go |
| `KEqual.ExprEqExactly` | buildroot-vkernel/support/kconfig/expr.c:189-229 | `expr_eq` says yes to two AND (or OR) expressions without constants if and only if they have as many operands and each of the second has an equal one in the first |
| `KEqual.OrderDoesNotMatter` | buildroot-vkernel/support/kconfig/expr.c:189-229 | in particular when two different operands are exchanged |
| `KComplete.Dups1Complete` | buildroot-vkernel/support/kconfig/expr.c:504-554 | if the first pass counts nothing, no rule joins any two operands |
| `KComplete.Dups2Complete` | buildroot-vkernel/support/kconfig/expr.c:556-610 | if the second pass counts nothing, no operand is contradicted by another node of the spine |
| `KComplete.EliminateDupsComplete` | buildroot-vkernel/support/kconfig/expr.c:612-634 | in the result no rule joins two operands and none is contradicted |
| `KContradict.NegatedOperands` | buildroot-vkernel/support/kconfig/expr.c:575-602 | the operands of a negated OR (AND) node are the negations of its operands, in their order |
| `KContradict.ContradictsExactly` | buildroot-vkernel/support/kconfig/expr.c:575-602 | an operand is contradicted by a node if and only if all operands of its negation occur there |
| `KContradict.FirstPassFindsNothing` | buildroot-vkernel/support/kconfig/expr.c:504-554 | if no rule joins two operands the first pass leaves the expression alone |
| `KContradict.SecondPassExactly` | buildroot-vkernel/support/kconfig/expr.c:556-634 | when the first pass has nothing to do, a conjunction becomes n (a disjunction y) if and only if an operand is contradicted, and otherwise stays |
| `KContradict.OppositesCancel` | buildroot-vkernel/support/kconfig/expr.c:556-634 | a disjunction next to the negations of all its operands makes the conjunction n, and dually for y |
| `KContradict.NoOppositesLeft` | buildroot-vkernel/support/kconfig/expr.c:612-634 | whatever the input, no such opposites are left in the result |
| `KContradict.OppositesExample` | buildroot-vkernel/support/kconfig/expr.c:556-634 | A OR B, with the conjunction of !A and !B, becomes n, and the dual becomes y |
| `ExprNode.Node.EliminateYn` | buildroot-vkernel/support/kconfig/expr.c:231-312 | in place, on the nodes of the tree: the tree becomes the value function of its old content |
| `ExprNode.Node.DropOperand` | buildroot-vkernel/support/kconfig/expr.c:236-303 | the rewriting of one AND or OR node |
| `ExprNode.Node.TransBool` | buildroot-vkernel/support/kconfig/expr.c:317-341 | in place |
| `ExprNode.Transform` | buildroot-vkernel/support/kconfig/expr.c:636-771 | in place, with nodes reused: the returned root spells out the transformed expression, from old nodes and fresh ones |
| `ExprNode.TransformCompare` | buildroot-vkernel/support/kconfig/expr.c:652-692 | the comparison of a boolean symbol with y, m or n |
| `ExprNode.NegateLeaf` | buildroot-vkernel/support/kconfig/expr.c:703-711 | the negation of a comparison or a symbol |
| `ExprNode.DeMorgan` | buildroot-vkernel/support/kconfig/expr.c:712-729 | the node of the operand is reused for one of the two negations |
| `ExprPasses.Copy` | buildroot-vkernel/support/kconfig/expr.c:62-97 | a copy of fresh nodes |
| `ExprPasses.ElimEq` | buildroot-vkernel/support/kconfig/expr.c:130-162 | in place, on two trees without common nodes: both become what the value function leaves of them |
| `ExprPasses.EliminateEq` | buildroot-vkernel/support/kconfig/expr.c:164-184 | both phases and constant elimination, in place |
| `ExprPasses.ExprEq` | buildroot-vkernel/support/kconfig/expr.c:189-229 | works on copies, leaves both expressions alone, and answers as the value function does |
| `ExprPasses.ExtractEq` | buildroot-vkernel/support/kconfig/expr.c:848-875 | in place, as the value function of which `KContradict.ExtractEqComplete` speaks: equal operands move from the two trees to the tree of what is common |
| `ExprPasses.ExtractEqTop` | buildroot-vkernel/support/kconfig/expr.c:826-846 | with the constant elimination that follows if anything was found |
| `ExprDups.SameNode` | buildroot-vkernel/support/kconfig/expr.c:520-521 | two pointers into the tree are equal if and only if the paths to them are, so the identity test of the code is the path test of the model |
| `ExprDups.Dups1` | buildroot-vkernel/support/kconfig/expr.c:504-554 | two pointers walk one tree that is rewritten in place: the tree and the count become those of the value function on paths |
| `ExprDups.JoinPair` | buildroot-vkernel/support/kconfig/expr.c:530-549 | one operand becomes the unit, the other the joined expression, and no other node is touched |
| `ExprDups.Dups2` | buildroot-vkernel/support/kconfig/expr.c:556-610 | the same for the second pass, which goes on after the operands of the second node |
| `ExprDups.IsContradicted` | buildroot-vkernel/support/kconfig/expr.c:578-580 | the test on copies leaves the tree alone, even while the operands of the second node are being rewritten |
| `ExprDups.EliminateDups` | buildroot-vkernel/support/kconfig/expr.c:612-634 | the `while (1)` loop with its counter, on the nodes: ends with the expression `KDups.EliminateDups` |
| `KMenu.TransCompareExact` | buildroot-vkernel/support/kconfig/expr.c:877-936 | comparison with y or n is pushed to the symbols exactly, wherever no operand of a negation is m (for m see `TransCompareMod`) |
| `KMenu.TransCompareOfNot` | buildroot-vkernel/support/kconfig/expr.c:908-909 | below a negation it is right if and only if the operand is not m |
| `KMenu.TransCompareMod` | buildroot-vkernel/support/kconfig/expr.c:877-936 | comparison with m is right for symbols and comparisons, for an AND or OR node if and only if its value is n, and for no negated symbol |
| `KMenu.TransBoolKeepsVisible` | buildroot-vkernel/support/kconfig/expr.c:317-341 | on normal forms it is kept whether the value is n, no value rises, and the form stays normal |
| `KMenu.TransBoolRemoves` | buildroot-vkernel/support/kconfig/expr.c:317-341 | no comparison `!= n` of a tristate symbol is left, and nothing but such comparisons is changed |
| `KMenu.TransBoolNeedsNormal` | buildroot-vkernel/support/kconfig/expr.c:317-341 | y may become m, and below a negation n may become m |
| `KMenu.TransBoolOfCmp` | buildroot-vkernel/support/kconfig/expr.c:328-336 | a dropped comparison keeps its value if and only if the symbol is not m |
| `KMenu.TransBoolExact` | buildroot-vkernel/support/kconfig/expr.c:317-341 | where none of the symbols compared is m, the value of the whole expression is kept, in whatever form it is |
| `KMenu.ContainsIsMembership` | buildroot-vkernel/support/kconfig/expr.c:773-795 | `expr_contains_symbol` answers whether the symbol occurs |
| `KMenu.ContainsIsComplete` | buildroot-vkernel/support/kconfig/expr.c:773-795 | a symbol that is not contained has no influence on the value |
| `KMenu.DependsIsConjunct` | buildroot-vkernel/support/kconfig/expr.c:797-824 | the answer is yes if and only if one of the conjuncts is the symbol or one of the three tests of it |
| `KMenu.DependsIsSound` | buildroot-vkernel/support/kconfig/expr.c:797-824 | an expression found to depend on a symbol is n whenever the symbol is |
| `KMenu.PropagateSound` | buildroot-vkernel/support/kconfig/menu.c:311-316 | propagated dependencies are conjunctions: definite values are kept, and so is the normal form |
| `KMenu.PropagateSimplifies` | buildroot-vkernel/support/kconfig/menu.c:311-316 | what is stored is simplified: `expr_eliminate_dups` finds nothing more in it |
| `KMenu.PropVisibleSound` | buildroot-vkernel/support/kconfig/menu.c:321-328 | a property is hidden wherever the inherited dependency, the own one or its condition is n, and visible where all are y |
| `KMenu.PropVisibleSimplifies` | buildroot-vkernel/support/kconfig/menu.c:321-328 | so is the visibility of a property of a tristate symbol; in that of another one no comparison `!= n` of a tristate symbol is left |
| `KMenu.NotNExact` | buildroot-vkernel/support/kconfig/menu.c:350-352 | the simplified `e != n` is y or n according to the value of e |
| `KMenu.NotNBelow` | buildroot-vkernel/support/kconfig/menu.c:350-352 | for a condition in normal form it is never y where the condition is n, whatever is m |
| `KMenu.NotNSimplifies` | buildroot-vkernel/support/kconfig/menu.c:350-352 | it is in normal form, and `expr_eliminate_dups` finds nothing more in it |
| `KMenu.ImpliedIsSound` | buildroot-vkernel/support/kconfig/menu.c:339-358 | if elimination leaves y of the parent side, a visible entry has a visible parent, wherever the test notices that the entry is visible |
| `KMenu.DefiniteIsNoticed` | buildroot-vkernel/support/kconfig/menu.c:350-352 | it does notice where no operand of a negation in the condition of the entry is m |
| `KImplied.ImpliedFailsExactly` | buildroot-vkernel/support/kconfig/menu.c:339-358 | some parent is visible less than an entry that passes the test if and only if the condition of the entry goes unnoticed and its simplified test is a conjunction |
| `KImplied.OnlyForConjunctions` | buildroot-vkernel/support/kconfig/expr.c:164-184 | what is not a conjunction never leaves y of an expression without operand y |
| `KImplied.PushedIsFixed` | buildroot-vkernel/support/kconfig/expr.c:877-936 | the test of a test, before duplicates are removed, is that test |
| `KMenu.ImpliedNeedsDefinite` | buildroot-vkernel/support/kconfig/menu.c:339-358 | a concrete pair for which the test succeeds and, with an m below a negation, the entry is visible and the parent is not |
| `KMenu.BelongsBelowIsSound` | buildroot-vkernel/support/kconfig/menu.c:345-358 | an entry moved below another is hidden whenever the other symbol is n and its prompt invisible, wherever the test notices that the entry is visible |
| `KImplied.BelongsContains` | buildroot-vkernel/support/kconfig/menu.c:345-346 | only an entry whose condition contains the symbol belongs below it |
| `KImplied.BelongsWithoutCondition` | buildroot-vkernel/support/kconfig/menu.c:345-358 | below a prompt without condition exactly the entries whose condition contains the symbol belong |
| `KImplied.TestingConjunctBelongs` | buildroot-vkernel/support/kconfig/menu.c:347-348 | below any prompt an entry belongs if one of its conjuncts tests the symbol |
| `KImplied.ConjunctionBelongs` | buildroot-vkernel/support/kconfig/menu.c:345-358 | and if its condition contains the symbol, and its simplified test is that of the prompt joined with anything |
| `KImplied.EliminatedExactly` | buildroot-vkernel/support/kconfig/expr.c:130-184 | of a conjunction and another expression, elimination leaves y of the other if and only if each operand of it equals one of the conjunction |
| `KImplied.ImpliedExactly` | buildroot-vkernel/support/kconfig/menu.c:349-358 | the second half of the test succeeds if and only if the test of the prompt is y, or each of its operands occurs in the conjunction that is the test of the entry |
| `KMenu.SubmenuLength` | buildroot-vkernel/support/kconfig/menu.c:343-363 | the loop takes the longest run of following entries that pass the test, `BelongsBelow`, of which the rows before this one say whom it lets pass |
| `KSubmenu.SubmenuIsHidden` | buildroot-vkernel/support/kconfig/menu.c:339-370 | the rearrangement with these tests: an entry moved below a symbol is hidden whenever the symbol is n and its prompt invisible, wherever the test notices that the entry is visible, and stays directly below it if it has a prompt or nothing below itself |
| `MenuFinalize.FinalizeRoot` | buildroot-vkernel/support/kconfig/menu.c:336-422 | moving entries below and lifting them out keeps all entries in their order, and afterwards only entries with a prompt have entries below them |
| `MenuFinalize.FinalizeOneKeepsOrder` | buildroot-vkernel/support/kconfig/menu.c:336-422 | the same order for an entry with the siblings that follow it |
| `MenuFinalize.NestIsMaximal` | buildroot-vkernel/support/kconfig/menu.c:343-368 | exactly the longest run of entries that belong below is taken from the siblings |
| `MenuFinalize.NestIsFront` | buildroot-vkernel/support/kconfig/menu.c:343-368 | entries are finalized in the same way whether they move or stay: those that move below are a front part of what the loop makes of all these siblings |
| `MenuFinalize.FinalizeAllSettled` | buildroot-vkernel/support/kconfig/menu.c:336-368 | before lifting, a symbol without entries below it is never followed by one that belongs below it |
| `MenuFinalize.NestSettled` | buildroot-vkernel/support/kconfig/menu.c:343-368 | nor among the entries that have moved: they have been finalized in turn |
| `MenuFinalize.LiftKeepsOrder` | buildroot-vkernel/support/kconfig/menu.c:371-422 | lifting keeps the order |
| `MenuFinalize.LiftLeavesPrompted` | buildroot-vkernel/support/kconfig/menu.c:412-422 | entries with a prompt or with nothing below them stay on their level, with all that is below them |
| `MenuLinks.Finalize` | buildroot-vkernel/support/kconfig/menu.c:334-422 | in place: `list`, `next` and `parent` of all entries below and behind an entry spell out the rearranged trees |
| `MenuLinks.FinalizeSiblings` | buildroot-vkernel/support/kconfig/menu.c:336-337 | the loop over the entries of a menu, while each call may take followers away |
| `MenuLinks.NestFollowing` | buildroot-vkernel/support/kconfig/menu.c:338-368 | the followers that belong below an entry are cut out of the list of siblings and become its entries |
| `MenuLinks.CutOff` | buildroot-vkernel/support/kconfig/menu.c:364-368 | the three pointer assignments of that cut |
| `MenuLinks.LiftChildren` | buildroot-vkernel/support/kconfig/menu.c:371-422 | the loop that moves the entries of an entry without prompt up behind it, and goes on over them |
| `MenuLinks.Reparent` | buildroot-vkernel/support/kconfig/menu.c:413-417 | the inner loop to the last of these entries |
| `MenuLinks.FinalizeAndWalk` | buildroot-vkernel/support/kconfig/confdata.c:786-819 | after the rearrangement `conf_write` still visits every entry once, in the order in which they were read |
| `MenuTree.ConfWriteWalk` | buildroot-vkernel/support/kconfig/confdata.c:786-819 | the walk over `list`, `next` and `parent` ends, visits every entry once in preorder, and prints what the recursive description says |
| `MenuTree.Climb` | buildroot-vkernel/support/kconfig/confdata.c:812-818 | the inner loop goes up to the next entry that is not visited yet, or to the end |
| `MenuTree.PrintedOnce` | buildroot-vkernel/support/kconfig/confdata.c:798-806 | with the flag cleared on output, each flagged symbol that has an entry is printed exactly once, and no other |
| `MenuTree.HeadingsPrinted` | buildroot-vkernel/support/kconfig/confdata.c:787-797 | the heading of an entry without symbol is printed as often as the entry is visited if it is visible, and no other heading is |
| `MenuTree.PrintedAtFirst` | buildroot-vkernel/support/kconfig/confdata.c:786-819 | the line of a symbol stands at the place of its first entry, between what the entries before and behind it print |
| `SymCalc.CalcNeverModForBoolean` | buildroot-vkernel/support/kconfig/symbol.c:293-440 | the calculation never leaves m in a symbol whose effective type is boolean |
| `SymCalc.CalcTriBounds` | buildroot-vkernel/support/kconfig/symbol.c:293-440 | a symbol is never below what selects it, an invisible one ignores the user, and where the user has set a visible symbol its value is at most the larger of visibility and selection |
| `SymCalc.DefaultIsFirst` | buildroot-vkernel/support/kconfig/symbol.c:115-125 | the default that applies is the first visible one |
| `SymCalc.DefaultBounds` | buildroot-vkernel/support/kconfig/symbol.c:357-383 | what a default is worth: where no user value counts, at most the larger of selection and its visibility, at most the larger of selection and its expression, and at least the smaller of visibility and expression, up to m becoming y |
| `SymCalc.NoDefault` | buildroot-vkernel/support/kconfig/symbol.c:357-383 | without a default that applies the value is what the symbol is selected to |
| `SymCalc.PromptIsMaximum` | buildroot-vkernel/support/kconfig/symbol.c:194-199 | the visibility is that of the strongest prompt, comment or menu property |
| `SymCalc.FieldsAre` | buildroot-vkernel/support/kconfig/symbol.c:189-229 | visibility and selection are the values of what they come from, up to m becoming y, and the direct dependency is n exactly where its expression is |
| `SymCalc.TextIs` | buildroot-vkernel/support/kconfig/symbol.c:385-402 | a visible text set by the user is the value, an invisible one makes no difference, and by default it is the text of the symbol that the default names, or empty |
| `SymCalc.UsedDecides` | buildroot-vkernel/support/kconfig/symbol.c:293-440 | given the state of MODULES, the value is determined by the symbols that the calculation asks for, and so is which symbols these are |
| `SymCalc.EvalAsOn` | buildroot-vkernel/support/kconfig/expr.c:938-977 | as long as MODULES is not n, an expression has its value in the configuration |
| `SymCalc.AnyMode` | buildroot-vkernel/support/kconfig/symbol.c:771-773 | without tristate symbols among the dependencies it makes no difference what MODULES is |
| `SymValues.ValuesAreUnique` | buildroot-vkernel/support/kconfig/symbol.c:293-440 | without dependency cycles the user choices and the state of MODULES at each calculation determine every value |
| `SymValues.ValuesExist` | buildroot-vkernel/support/kconfig/symbol.c:293-440 | and there are such values |
| `SymValues.RecalculationIs` | buildroot-vkernel/support/kconfig/symbol.c:442-452 | what is calculated while the visibility of MODULES is, what while its default is, the new `modules_val` and all values depend on nothing but the user choices and the old `modules_val` |
| `SymValues.RecalculationExists` | buildroot-vkernel/support/kconfig/symbol.c:442-452 | every recalculation has an outcome |
| `SymValues.StableStays` | buildroot-vkernel/support/kconfig/symbol.c:442-452 | a recalculation leaves stable values alone |
| `SymValues.StableIsConfiguration` | buildroot-vkernel/support/kconfig/symbol.c:414-419 | stable values are a configuration, with modules as `modules_val` says, and are read as such |
| `SymValues.StableExists` | buildroot-vkernel/support/kconfig/symbol.c:414-419 | there are stable values if and only if a recalculation with modules on leaves MODULES not n, or one with modules off leaves it n |
| `SymValues.SettlesAtOnce` | buildroot-vkernel/support/kconfig/symbol.c:442-452 | and if and only if one recalculation settles `modules_val`, whatever it was |
| `SymValues.StableWithoutTristate` | buildroot-vkernel/support/kconfig/symbol.c:63-74 | there are stable values if MODULES depends on no tristate symbol, directly or indirectly |
| `SymValues.PhaseUntouched` | buildroot-vkernel/support/kconfig/symbol.c:442-452 | setting a symbol does not change in which phase of the recalculation it is calculated |
| `SymValues.SetThenRecalculate` | buildroot-vkernel/support/kconfig/symbol.c:474-527 | in any state, for any value: exactly when the symbol has the value that was set, after the recalculation |
| `SymValues.SetThenCalc` | buildroot-vkernel/support/kconfig/symbol.c:474-527 | from stable values: an accepted new value is exactly what the recalculation yields, and where visibility exceeds selection no other value is |
| `SymValues.AcceptedIsYielded` | buildroot-vkernel/support/kconfig/symbol.c:474-527 | from whatever a recalculation has left, with the range as it is stored: exactly when an accepted value is yielded |
| `SymValues.UserHasNoSay` | buildroot-vkernel/support/kconfig/symbol.c:484-487 | every value is refused exactly for the symbols to which the value set by the user makes no difference |
| `SymValues.SetSameThenCalc` | buildroot-vkernel/support/kconfig/symbol.c:493-527 | exactly when a value set again lasts through the next recalculation, from whatever the last one has left, and in closed form from stable values |
| `SymExamples.NoStableConfiguration` | buildroot-vkernel/support/kconfig/symbol.c:414-419 | a table without dependency cycles that has no stable values at all |
| `SymExamples.ReadAsN` | buildroot-vkernel/support/kconfig/symbol.c:771-773 | another one, only because an m is read as n while the default of MODULES is looked at |
| `SymExamples.JoinedWhileReadAsN` | buildroot-vkernel/support/kconfig/symbol.c:771-773 | an expression whose simplified form then has another value |
| `SymExamples.AcceptedButLost` | buildroot-vkernel/support/kconfig/symbol.c:442-527 | a value is accepted, and the recalculation that follows yields another, since it changes `modules_val` |
| `SymExamples.KeptRangeIsOld` | buildroot-vkernel/support/kconfig/symbol.c:474-491 | a value is accepted since the range is tested with a visibility from before `modules_val` changed |
| `SymExamples.SetAgainLost` | buildroot-vkernel/support/kconfig/symbol.c:493-527 | a value that is set again is lost |
| `SymTable.Symbols.CalcValue` | buildroot-vkernel/support/kconfig/symbol.c:293-440 | the memoised calculation, with its early validity mark and the default stored for the time being, leaves the value of the recalculation, and leaves valid symbols alone; only the calculation of MODULES sets `modules_val` |
| `SymTable.Symbols.EvalExpr` | buildroot-vkernel/support/kconfig/expr.c:938-977 | evaluation calculates the symbols on the way and returns the value of the expression, as read under the value stored for MODULES |
| `SymTable.Symbols.AskText` | buildroot-vkernel/support/kconfig/symbol.c:760-781 | the text of a symbol; an m is n while n is stored for MODULES |
| `SymTable.Symbols.CalcPrompts` | buildroot-vkernel/support/kconfig/symbol.c:194-198 | the visibility is the maximum over the prompts |
| `SymTable.Symbols.CalcVisibility` | buildroot-vkernel/support/kconfig/symbol.c:189-227 | visibility, direct dependency and selection, in the state of MODULES at that moment |
| `SymTable.Symbols.GetDefaultProp` | buildroot-vkernel/support/kconfig/symbol.c:115-125 | the first visible default, with its visibility |
| `SymTable.KeptIsValid` | buildroot-vkernel/support/kconfig/symbol.c:442-452 | after the calculation of MODULES exactly the symbols that it has asked for are valid |
| `SymTable.Symbols.ClearAllValid` | buildroot-vkernel/support/kconfig/symbol.c:442-452 | the state from which all values of one and the same recalculation can be calculated; exactly the symbols that MODULES has asked for are valid |
| `SymTable.Symbols.Calc` | buildroot-vkernel/support/kconfig/symbol.c:293-440 | whatever is calculated then, in any order, belongs to that recalculation |
| `SymTable.Symbols.SetTristateValue` | buildroot-vkernel/support/kconfig/symbol.c:493-527 | accepts the current value or one within the stored range; stores it; and starts a recalculation if it is new |
| `SymTable.Symbols.SetAndCalc` | buildroot-vkernel/support/kconfig/symbol.c:474-527 | on the object, after any recalculation: a value is accepted if and only if it is the current one or in the stored range; exactly when it is the value that the next calculation yields, and that it always is if `modules_val` did not change last time |
| `CycleCheck.Checker.CheckAll` | buildroot-vkernel/support/kconfig/symbol.c:1255-1287 | checking all symbols from clear flags reports nothing if and only if the dependency graph (`EdgesAre`) is acyclic, and every report is a cycle; without a report the finished order has every symbol after those it depends on |
| `CycleCheck.Checker.CheckDeps` | buildroot-vkernel/support/kconfig/symbol.c:1255-1287 | if nothing was reported, the symbol and all it depends on are in the finished order; the stack and the flags of open symbols are as before |
| `CycleCheck.Checker.CheckExprDeps` | buildroot-vkernel/support/kconfig/symbol.c:1153-1181 | if nothing was reported, all symbols of the expression are finished |
| `CycleCheck.Checker.CheckSymDeps` | buildroot-vkernel/support/kconfig/symbol.c:1184-1216 | if nothing was reported, all dependencies of the symbol (reverse dependencies, visibilities, defaults) are finished |
| `CycleCheck.Checker.Report` | buildroot-vkernel/support/kconfig/symbol.c:1059-1151 | the part of the stack from the symbol on is a cycle of the graph |
| `CycleCheck.TopologicalIsAcyclic` | buildroot-vkernel/support/kconfig/symbol.c:1255-1287 | a finished order shows that there is no cycle |
| `CycleCheck.AcyclicHasOrder` | buildroot-vkernel/support/kconfig/symbol.c:1255-1287 | and without a cycle there is such an order of all symbols |
| `CycleCheck.EdgesAre` | buildroot-vkernel/support/kconfig/symbol.c:1184-1216 | a symbol depends on another if and only if this occurs in its reverse dependency, in the condition of a property other than choice and select, or in the expression of a default |
| `CycleCheck.SelectsDoNotCount` | buildroot-vkernel/support/kconfig/symbol.c:1197-1198 | removing all select and choice properties from a table changes neither the graph nor the answer |
| `CycleCheck.SelectIsNoCycle` | buildroot-vkernel/support/kconfig/symbol.c:1193-1198 | one symbol selecting another is no recursive dependency |
| `ConfText.EscapeStringValue` | buildroot-vkernel/support/kconfig/symbol.c:915-956 | the two loops compute the escaped text, of the length measured first |
| `ConfText.UnquoteInPlace` | buildroot-vkernel/support/kconfig/confdata.c:151-166 | the loop that moves the text over its backslashes, in place, finds the closing quote or none |
| `ConfText.UnquoteEscape` | buildroot-vkernel/support/kconfig/symbol.c:915-956 | unescaping inverts escaping, whatever follows the closing quote |
| `ConfText.EscapePlain` | buildroot-vkernel/support/kconfig/symbol.c:915-956 | a text without quotes and backslashes is written as it stands |
| `ConfText.UnquoteExactly` | buildroot-vkernel/support/kconfig/confdata.c:154-168 | what is read behind an opening quote is what the characters up to the first quote without a backslash stand for; without such a quote nothing is |
| `ConfText.LineRoundTrip` | buildroot-vkernel/support/kconfig/confdata.c:480-501 | a line that is printed for a value is read back as that value: y, m, "is not set", strings, and valid int and hex text |
| `ConfText.LineSaysValue` | buildroot-vkernel/support/kconfig/confdata.c:480-501 | what the line is: for n the comment `# ... is not set`, which unsets the symbol, and for any other value an assignment of y, m, the number, or the string between quotes |
| `ConfText.UnsetExactly` | buildroot-vkernel/support/kconfig/confdata.c:313-322 | exactly the comments of this form unset a symbol, and it is the one they name |
| `ConfText.AssignedExactly` | buildroot-vkernel/support/kconfig/confdata.c:345-356 | exactly the lines NAME=value assign; the name ends at the first equals sign |
| `ConfText.ChopExactly` | buildroot-vkernel/support/kconfig/confdata.c:350-355 | the value ends before the line feed, and before a carriage return in front of it |
| `ConfText.TristateExactly` | buildroot-vkernel/support/kconfig/confdata.c:123-145 | a boolean or tristate symbol gets the value that the first letter names; everything else, and m for a boolean one, is refused |
| `ConfText.IntExactly` | buildroot-vkernel/support/kconfig/symbol.c:558-571 | the text of an int is valid if and only if it is the decimal form of a number without leading zeros, perhaps behind a minus sign |
| `ConfText.HexExactly` | buildroot-vkernel/support/kconfig/symbol.c:572-580 | that of a hex value if and only if it is made of such digits, perhaps behind 0x or 0X |
| `ConfText.StringExactly` | buildroot-vkernel/support/kconfig/confdata.c:154-182 | a string symbol gets exactly the string that is quoted, and a text without opening quote is passed over |
| `ConfText.WritableExactly` | buildroot-vkernel/support/kconfig/confdata.c:119-187 | the values that can be written are exactly those that can be read from some text on one line |
| `ConfText.ParseAssigned` | buildroot-vkernel/support/kconfig/confdata.c:350-375 | a line NAME=value is split at its first equals sign |
| `ConfText.FileRoundTrip` | buildroot-vkernel/support/kconfig/confdata.c:310-375 | a file of such lines is read back as the same values in the same order |
| `ConfText.FileSaysValues` | buildroot-vkernel/support/kconfig/confdata.c:480-501 | a written file has one line for each entry, in order, and each says its value in this way |
| `ConfText.NothingAssignsN` | buildroot-vkernel/support/kconfig/confdata.c:487-494 | no line of a written file assigns n, and one that unsets a symbol stands for an entry whose value is n |
| `Sstf.NearestOf` | buildroot-vkernel/modules/sstf-iosched/sstf-iosched.c:59-78 | the first of the nearest requests |
| `Sstf.PickIs` | buildroot-vkernel/modules/sstf-iosched/sstf-iosched.c:59-78 | the request taken is the oldest before the first dispatch, afterwards the oldest of the nearest, and no other |
| `Sstf.Scheduler.AddRequest` | buildroot-vkernel/modules/sstf-iosched/sstf-iosched.c:113-127 | requests are added at the tail |
| `Sstf.Scheduler.ShortestDistanceRequest` | buildroot-vkernel/modules/sstf-iosched/sstf-iosched.c:59-78 | the scan finds the first nearest request, or the head of the queue before the first dispatch |
| `Sstf.Scheduler.Dispatch` | buildroot-vkernel/modules/sstf-iosched/sstf-iosched.c:82-108 | one request leaves the queue, and its sector becomes the head position |
| `Sstf.Scheduler.Drain` | buildroot-vkernel/modules/sstf-iosched/sstf-iosched.c:82-108 | dispatching until nothing is left serves every request once |
| `Sstf.DrainServesAll` | buildroot-vkernel/modules/sstf-iosched/sstf-iosched.c:82-108 | no request is lost or served twice |
| `Sstf.DispatchKeepsOutside` | buildroot-vkernel/modules/sstf-iosched/sstf-iosched.c:59-108 | one dispatch keeps all unserved requests outside the interval served, and doubles the bound for the next crossing |
| `Sstf.UnservedOutside` | buildroot-vkernel/modules/sstf-iosched/sstf-iosched.c:59-108 | at every moment of a drain no unserved request lies strictly inside the interval served |
| `Sstf.CrossingsDouble` | buildroot-vkernel/modules/sstf-iosched/sstf-iosched.c:59-108 | each crossing move is at least twice as long as the previous one |
| `Sstf.Reversals` | buildroot-vkernel/modules/sstf-iosched/sstf-iosched.c:59-108 | so the number of reversals is logarithmic in the span |
| `Sstf.RemainingMovement` | buildroot-vkernel/modules/sstf-iosched/sstf-iosched.c:59-108 | at every moment the movement still to come is bounded by the part of the span not covered |
| `Sstf.DrainMovement` | buildroot-vkernel/modules/sstf-iosched/sstf-iosched.c:59-108 | draining any queue from any head position moves the head at most three times the span |
| `Sstf.FirstDrainMovement` | buildroot-vkernel/modules/sstf-iosched/sstf-iosched.c:59-108 | the same from the first served sector on, when the head position is not known |
| `Crc.TableCorrect` | buildroot-vkernel/package/mkpimage/mkpimage.c:104-148 | every entry of the table is eight shift steps with the polynomial 0x04C11DB7 |
| `Crc.Crc32` | buildroot-vkernel/package/mkpimage/mkpimage.c:150-158 | the loop over the bytes computes the CRC function |
| `Crc.CrcByteIsIter` | buildroot-vkernel/package/mkpimage/mkpimage.c:155 | one table step is eight single-bit steps on the register with the byte added at the top |
| `Crc.CrcIsSerial` | buildroot-vkernel/package/mkpimage/mkpimage.c:150-158 | for every buffer and start value the table-driven CRC is the bit-serial, most significant bit first register |
| `Crc.CrcIsRemainder` | buildroot-vkernel/package/mkpimage/mkpimage.c:150-158 | and the remainder of the message, followed by 32 zeros, under division by the polynomial |
| `Crc.BurstDetected` | buildroot-vkernel/package/mkpimage/mkpimage.c:150-158 | buffers that differ only within 32 consecutive bits have different CRCs |

## Left out

- The T3 semaphore build (without `PMUTEX_H2`), scheduling policies and priorities, and the pthread library itself.
- Weak memory, `pmutex_destroy`, allocation failure, and `lock` called by a thread that was never added (its behaviour is undefined).
- PMutex.Mutex.Add: the two linked lists are the sequences of their elements; what a thread that is already inside `lock` does after another registration is not modelled, since the program registers all threads first.
- ThreadRunner.PostProcessing: what is printed; the char arithmetic assumes a signed 8-bit char.
- ExprPasses.ElimEq: the count of rewrites that `expr_eq` restores is not kept; freeing of nodes is not modelled, and a slot is the node that it holds.
- ExprDups.JoinPair: only the two operand nodes are written, but the join rules look at the expressions read from them, not at the nodes, and build their result anew.
- KMenu.TransCompare: only for the comparison with y, m and n; `menu.c` calls it with n.
- `E_LIST` and `E_RANGE` expressions, `expr_compare_type`, `expr_simplify_unmet_dep` and the printing of expressions.
- Choice groups: `sym_calc_choice`, `sym_check_choice_deps`, the choice branches of `menu_finalize` and of `sym_set_tristate_value`.
- Environment symbols, automatic symbols, `sym_validate_range` and the range checks of int and hex symbols, `sym_toggle_tristate_value`, `sym_set_string_value`.
- SymCalc.CalcTri: the warning about unmet direct dependencies, and the flags `SYMBOL_WRITE` and `SYMBOL_CHANGED`.
- SymTable.Symbols.SetTristateValue: after a value equal to the current one, nothing is claimed of symbols calculated before the next recalculation.
- SymValues.RecalculationIs: tables whose symbols ask for each other in a cycle, through direct dependencies or otherwise.
- MenuLinks.Finalize: the tests for a symbol, for a prompt and for a submenu are parameters here (`KSubmenu` has the rearrangement of trees with the actual tests); `dep`, `visible.expr` and `rev_dep` are rewritten as values, not in the entries.
- ConfText.ReadFile: override warnings, unknown symbols, `auto.conf` and `S_DEF_AUTO` values, the header and tristate printers, and file handling.
- Sstf.Scheduler: `sstf_merged`, set-up and tear-down, the output of `printk`, and overflow of sector numbers in `long`.
- The boot header that `mkpimage` builds around the checksum, and its file input and output.
- The user interfaces (`mconf`, `nconf`, `gconf`, `qconf`, `conf`), the Kconfig grammar, the device drivers, the other Buildroot packages and scripts.
