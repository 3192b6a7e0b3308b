# Dagster: models and proofs

Dagster is a distributed SAT and #SAT solver. A problem is a directed graph of clause sets; a master hands partial assignments
to workers, workers enumerate the solutions of a node with a CDCL solver, and solutions travel along the edges as messages.
Around it stand a preprocessor and generators that compile benchmark problems to clauses. This project models the parts whose
correctness is an argument and not a matter of reading one function, in the form of the source: objects with their fields,
loops over arrays and cursors, recursion where the source recurs. Definitions of meaning (assignments, models, cubes, ranks,
two's complement, walks, runs) are separate from the code, and lemmas connect the two.

| file | source | main results |
|---|---|---|
| Logic.dfy | | literals, assignments, models |
| Preprocessor.dfy | c_pro/up.cpp | `Simplify`: equisatisfiable and reduced |
| Cdcl.dfy, SolverSteps.dfy, SatSolver.dfy | dagster/CnfManager.cpp, dagster/SatSolver.cpp | watch, trail and antecedent invariant; learned clauses; scores; `Run` |
| Resolution.dfy, Trimming.dfy | the same | `LearnsIrredundant`: the clause learned; `KeptNeeded`: the trimmed solution is without waste |
| UnitPropagation.dfy, Scanning.dfy | the same | the closure propagation computes; what the scan of the order loses |
| Pausing.dfy, StaleSlot.dfy | the same | when `run` throws: `PauseUntilEnd`, `TwoPauses`, `ThrowsUnpaused` |
| Enumeration.dfy | dagster/Worker.cpp | `ExactEnumeration`, `SentBounded` |
| Organiser.dfy, Protocol.dfy | dagster/MasterOrganiser.cpp, dagster/Master.cpp, dagster/Worker.cpp | balance, and who is moved; no deadlock; no work lost in any mode |
| Bdd.dfy | dagster/BDDSolutions.cpp | `Interchangeable` |
| Dag.dfy | dagster/Dag.cpp | `AssignDepthsAndStatus` |
| TableSolutions.dfy | dagster/TableSolutions.cpp, dagster/utilities.cpp | each compatible choice once; merge |
| Determinant.dfy | Benchmarks/determinant/determinant.py | `ModelsAreInverses`, `InversesAreModels` |
| Ramsey.dfy | Benchmarks/ramsey/constraints.cc | totalizer, colour order, tree encodings |
| Unranking.dfy | Benchmarks/gensat/ggensata.c | `GeneRepComb` inverts the lexicographic rank |
| RangeSet.dfy, Wire.dfy, DagWire.dfy | dagster/RangeSet.h, dagster/Cnf.cpp, dagster/Message.cpp, dagster/Dag.cpp | canonical sets, round trips |

How the models are built:

- A method that changes an object is tied to a function of the old state or to a predicate between old and new values. The
  predicates are on values (sequences, maps, records), so that the lemmas about them do not mention the heap. `hide` statements
  keep definitions out of proofs that do not need them.
- Scores, promotions, signs and decay are those of the source. Restarts, the order of variables with equal scores at the start and
  the order of unordered containers are left open, and every result holds for all choices.
- A ghost field `base` of the solver is the formula it answers for: the clauses loaded and the blocking clauses added since.
  Every stored clause, learned ones included, is entailed by it. Further ghost fields record what the scan of the variable order
  lost: `skipped` by a pause, `moved` by a stale slot; and which root literals loading found.
- The formulas emitted by generators are described by what they mean over the variables that existed before, with "extends" for
  the existence, and "determined" for the uniqueness, of values for the new variables.

What the proofs found:

- `run` can throw its exception on satisfiable formulas. The search selects variables by a scan of the order that never goes
  back to a free variable it has lost (dagster/SatSolver.cpp:117-134), and when two variables of one clause are lost the clause can
  stay unsatisfied, so that the final check fails (dagster/SatSolver.cpp:209-210). `Run` and `PairLost`: this is the only cause.
  Variables are lost in two ways.
- A pause (dagster/SatSolver.cpp:151-155) forgets the literal just selected, behind which the scan has already moved. One such
  variable is harmless, as propagation is complete (`OnePause`). With a reporting time of 1 `PauseUntilEnd` says exactly which
  formulas end in the exception: those that unit propagation neither refutes nor satisfies. For every larger reporting time
  `TwoPauses` gives a satisfiable formula on which two pauses lead to it.
- A conflict on a binary clause writes the false literal into slot 0 of the implication list (dagster/CnfManager.cpp:208), where it
  stays. When a literal implied through that list is resolved later, the scores rise from slot 0 on (dagster/CnfManager.cpp:303),
  and the stale variable, which may be free by then, can be promoted past the scan. `ThrowsUnpaused`: this alone, without any pause,
  makes the search end in the exception on a satisfiable formula of seven variables. `FirstSearch`: without clauses of two literals
  it cannot happen, and then no search throws before a pause.
- The clause (1 -1), which the loader refuses but the solver would take, is never satisfied by the final check although it is
  always true (`OppositeLiterals`).
- The comment at Benchmarks/ramsey/constraints.cc:269 announces counts that do not decrease; the clauses at line 288 make them not
  increase. The model follows the code.
- `max_depth` of the layering is an upper bound of the depths and not always their maximum, as a predecessor's depth may be
  lowered after its successor's was set: it is the span of the depths ever given in a subgraph.
- `min_satisfying_lit` of the trimming is set only where the search ends (dagster/SatSolver.cpp:254-268), so every positive true
  literal starts the search for the least variable anew, and a variable with a lower number before it is passed over.
- `resolve_sorted_vectors` silently ends at literals of absolute value INT_MAX and more; the contract says so.

## Model

| member | source | states |
|---|---|---|
| Preprocessor.Engine.constructor | c_pro/up.cpp:48-57 | a new engine holds every clause filed under its watched literals and every unit clause queued; without unit clauses nothing is assigned |
| Preprocessor.Engine.BuildClause | c_pro/up.cpp:60-86 | filing clause ci extends the watch, trail and queue invariant from the first ci clauses to the first ci + 1 |
| Preprocessor.Engine.Enqueue | c_pro/up.cpp:89-97 | succeeds unless the literal is false; assigns it, and puts it on trail and queue, exactly if it was unassigned |
| Preprocessor.Engine.FindReplacement | c_pro/up.cpp:121-131 | the first literal at neither watched position that is not false, or the length of the clause if all are false |
| Preprocessor.Engine.ProcessWatchOnFalsified | c_pro/up.cpp:106-145 | a failure refutes the formula; otherwise the visited reference is settled, or its watch is re-filed under a literal that is not false |
| Preprocessor.MovedSettles | c_pro/up.cpp:121-131 | re-filing a watch under a literal that is not false and swap-popping the list being walked keeps the whole invariant, with one reference fewer to visit |
| Preprocessor.Engine.VisitEntry | c_pro/up.cpp:159-176 | one turn of the walk keeps the invariant and leaves fewer references to visit, although the list shrinks under the index |
| Preprocessor.Engine.Propagate | c_pro/up.cpp:149-179 | false only if the formula is unsatisfiable; true leaves the queue empty and the invariant in force |
| Preprocessor.UnitPreserves | c_pro/up.cpp:133-137 | assigning the last open literal of a clause keeps a model of the formula if there was one |
| Preprocessor.ConflictRefutes | c_pro/up.cpp:143-144 | a clause with only false literals refutes the formula, also after pure-literal assignments |
| Preprocessor.Engine.CountOccurrences | c_pro/up.cpp:182-203 | an occurrence counter is positive exactly if the unassigned literal occurs in a clause that is not yet true |
| Preprocessor.Engine.PureLiteralElimination | c_pro/up.cpp:181-220 | returns the number of literals assigned, 0 exactly if no literal is pure |
| Preprocessor.PurePreserves | c_pro/up.cpp:205-218 | a pure literal may be made true although others were made true since the count: satisfiability is kept |
| Preprocessor.Engine.ToFixpoint | c_pro/up.cpp:223-240 | terminates; false only if the formula is unsatisfiable, true with an empty queue and no pure literal left |
| Preprocessor.Engine.Rebuild | c_pro/up.cpp:244-278 | fails exactly if something empty is left over, and otherwise writes the clauses that are not true without their false literals |
| Preprocessor.ResidualSound | c_pro/up.cpp:252-276 | a model of the input that agrees with the assignments is a model of what is left over |
| Preprocessor.ResidualComplete | c_pro/up.cpp:252-276 | a model of what is left over, overridden by the assignments, is a model of the input |
| Preprocessor.FixpointReduced | c_pro/up.cpp:222-278 | at a fixpoint what is left over has no empty clause, no unit clause and no pure literal: the failure branch of rebuild is unreachable |
| Preprocessor.FixpointMeaning | c_pro/up.cpp:222-278 | at a fixpoint input and residual formula are equisatisfiable, with the two transfers of models, and the residual is the input if nothing was assigned |
| Preprocessor.StartsPureFree | c_pro/up.cpp:181-218 | on a formula that is already reduced no literal is pure at the start |
| Preprocessor.Simplify | c_pro/up.cpp:283-309 | UNSAT only if there is no model; otherwise input and output are equisatisfiable, models carry over both ways, the output is reduced, and a second run assigns nothing |
| Cdcl.PlaceKeeps | dagster/CnfManager.cpp:169-174 | assigning a free literal that is a decision, has a reason, or is entailed at the root keeps the solver invariant and adds the literal to the work list |
| Cdcl.PartneredVisit | dagster/CnfManager.cpp:222-223 | a watched clause whose other watch is true needs no new watch |
| Cdcl.MovedVisit | dagster/CnfManager.cpp:225-241 | swapping a non-false literal into the watched position and moving the reference between the lists keeps the invariant, antecedents included |
| Cdcl.ImpliedVisit | dagster/CnfManager.cpp:244-253 | with all other literals false the other watch is implied by the clause, moved to its front if need be |
| Cdcl.PropagationComplete | dagster/CnfManager.cpp:180-267 | with no work left no clause, long or binary, is falsified, and none has a single open literal: an unsatisfied one has two free literals |
| Cdcl.Interrupted | dagster/CnfManager.cpp:255-261 | a conflict in mid-propagation leaves the invariant of all levels below the current one in force |
| Cdcl.ResolventStart | dagster/CnfManager.cpp:282-289 | the falsified clause without its root-level literals is entailed |
| Cdcl.ResolventStep | dagster/CnfManager.cpp:315-320 | resolving with the antecedent of the popped literal keeps the resolvent entailed |
| Cdcl.MinimisedFalse | dagster/CnfManager.cpp:328-339 | dropping all redundant literals at once is sound: by induction along the trail each dropped literal is false where the kept ones are |
| Cdcl.LearnedEntailed | dagster/CnfManager.cpp:269-356 | the learned clause follows from the formula after the simultaneous removal of all redundant literals |
| Cdcl.AddedKeeps | dagster/CnfManager.cpp:361-405 | an entailed clause may be stored at any moment; only its own two watches are not yet in order |
| Cdcl.PopKeeps | dagster/CnfManager.h:135-141 | freeing the top literal of a level above b keeps the invariant of the levels up to b |
| Cdcl.Unwound | dagster/CnfManager.h:135-143 | when no literal above b is left the state satisfies the full invariant at level b |
| Cdcl.AssertLearned | dagster/CnfManager.h:126-128 | asserting the first literal of the learned clause at its assertion level puts its watches in order |
| Cdcl.RestartedLearned | dagster/SatSolver.cpp:200-203 | after a restart to level 1 both watches of the learned clause are free |
| SolverSteps.BinaryImplied | dagster/CnfManager.cpp:194-203 | a binary clause with one false literal of the current level implies the other |
| SolverSteps.ClauseConflict | dagster/CnfManager.cpp:255-261 | a falsified watched clause is entailed and all negations of its literals are on the trail |
| SolverSteps.RootConflict | dagster/CnfManager.cpp:270-271 | a conflict at decision level 1 refutes the formula |
| SolverSteps.LearnedAsserts | dagster/CnfManager.cpp:323-349 | the minimised clause is entailed and asserting: the UIP literal comes first and alone of the conflict level, the second literal has level aLevel |
| SolverSteps.LearnedStored | dagster/CnfManager.cpp:361-405 | storing the clause, or keeping it aside when it is a unit, leaves what a backjump needs |
| SolverSteps.Rejoin | dagster/SatSolver.cpp:200-207 | after the backjump the learned clause has a free first literal, all others false and the second of the assertion level |
| SolverSteps.Scrambled | dagster/CnfManager.cpp:156-160 | taking an entry off the stack, moving the top into its place and pushing it again only permutes the root level |
| SolverSteps.TrimmedImplicant | dagster/SatSolver.cpp:241-309 | the trimmed assignment makes a literal of every clause true, blocking clauses included |
| SolverSteps.UnsatisfiedOpen | dagster/SatSolver.cpp:270-271 | a clause the final check finds unsatisfied has two free literals |
| SolverSteps.PlaceIsFirst | dagster/CnfManager.cpp:422-428 | strides of 1024 to the left and halved steps back find the first variable with a lower score, if the order is sorted before the one promoted |
| SolverSteps.RescoredSorted | dagster/CnfManager.cpp:407-434 | updateScores keeps the order sorted by score and a permutation of the same variables, from one decay to the next |
| Resolution.AnalysedStep | dagster/CnfManager.cpp:291-321 | one turn of the analysis: an unmarked literal is popped; a marked one is scored and replaced by its antecedent, or is the UIP |
| Resolution.MinimisedKeeps | dagster/CnfManager.cpp:323-339 | minimisation keeps exactly the literals that were decided or have an unmarked literal in their antecedent |
| Resolution.LearnsIrredundant | dagster/CnfManager.cpp:269-356 | the learned clause is exactly the negated UIP with the literals met below the conflict level that are not redundant |
| Resolution.UnstackedPrefix | dagster/CnfManager.h:135-143 | backtracking leaves the stack up to the last literal of the level returned to |
| Resolution.UnstackedSigns | dagster/CnfManager.h:137-137 | the signs of the literals removed are remembered, those of the last level excepted; all other signs stay |
| Resolution.UnstackedScan | dagster/CnfManager.h:139-139 | the next scan starts no later than at any variable that became free, and no earlier without such a variable |
| Trimming.ChoosesOnce | dagster/SatSolver.cpp:249-272 | which variable a clause gets marked is determined, although literals may be equally good |
| Trimming.MarkedFor | dagster/SatSolver.cpp:249-301 | a variable is marked only by a clause none of whose true literals was marked before |
| Trimming.KeptNeeded | dagster/SatSolver.cpp:303-309 | a variable stays assigned only if a blocking unit needs it, or some clause chose it when none of its true literals had been chosen |
| Trimming.TrimsOnce | dagster/SatSolver.cpp:241-309 | what the trimming leaves is determined by the assignment and the order of the clauses |
| UnitPropagation.ForcedDerived | dagster/CnfManager.cpp:180-267 | the literals in every closed set are those derivable clause by clause: the two definitions of unit propagation agree |
| UnitPropagation.RefutedDerived | dagster/CnfManager.cpp:180-267 | a formula is refuted by unit propagation exactly if a derivation falsifies a clause |
| UnitPropagation.RoomyQuiet | dagster/CnfManager.cpp:180-267 | propagation adds nothing and meets no conflict while every clause has two literals more than the stack |
| UnitPropagation.RootSettled | dagster/CnfManager.cpp:156-166 | without conflict at level 1 the stack holds exactly the literals that unit propagation sets, and propagation does not refute the formula |
| UnitPropagation.LoadRefuted | dagster/CnfManager.cpp:86-141 | a contradiction met while loading or asserting the units is one of unit propagation on the formula |
| UnitPropagation.LoadedUp | dagster/CnfManager.cpp:156-166 | what propagation sets after loading is forced by the formula, and a conflict refutes it |
| UnitPropagation.Reloaded | dagster/SatSolver.cpp:754-783 | the root literals found at loading are found again by every later search |
| Scanning.QuietRoomy | dagster/SatSolver.cpp:130-133 | a decision among clauses with room leaves the stack one literal longer and nothing else |
| Scanning.PairLost | dagster/SatSolver.cpp:117-134 | a clause that fails the final check has two free literals that the scan lost: dropped by a pause, promoted past the scan by a stale slot, or, in a blocking clause, never ordered |
| Scanning.OneLost | dagster/SatSolver.cpp:151-155 | a single lost variable is harmless if no clause has opposite literals |
| Scanning.NoneLost | dagster/SatSolver.cpp:139-214 | while nothing is lost no search fails its check |
| Solver.SatSolver.constructor | dagster/CnfManager.cpp:37-142 | loads the formula and asserts its units: a contradiction exactly if unit propagation refutes the formula; otherwise the stack holds what it sets, and scores, order and signs are as the search starts with them |
| Solver.SatSolver.LoadClause | dagster/CnfManager.cpp:86-122 | one clause is filed by its length and tallied; refusal on an empty clause or a refuted unit means unsatisfiable; implication lists keep the order of the formula |
| Solver.SatSolver.OrderVariables | dagster/SatSolver.cpp:470-478 | the order holds exactly the free variables that occur in clauses of two or more literals, sorted by occurrences; the positions invert it, and each of these variables gets the sign that occurs more often |
| Solver.SatSolver.UpdateScores | dagster/CnfManager.cpp:407-434 | counters, order and positions change exactly as the function Rescored says, a free variable from a stale slot included; what that promotes past the scan is recorded as moved, and any other free variable before the scan stays accounted for |
| Solver.SatSolver.FindPlace | dagster/CnfManager.cpp:422-424 | the loop in strides and halved steps computes the place PlaceFor, which PlaceIsFirst characterises |
| Solver.SatSolver.FillSlot | dagster/CnfManager.cpp:208-208 | a conflict on a binary clause leaves the false literal in slot 0 of the implication list, for good |
| Solver.SatSolver.RefuteBinary | dagster/CnfManager.cpp:204-210 | a falsified binary clause fills the slot, counts the conflict and is learned from, slot literal first |
| Solver.SatSolver.PopAndResolve | dagster/CnfManager.cpp:291-321 | one round of conflict analysis keeps marks, counter and entailed resolvent in step, or ends at the UIP, and is one turn of the function Analysed: marks, scores, order and place of the next scan included |
| Solver.SatSolver.FindUip | dagster/CnfManager.cpp:276-321 | ends with an entailed clause whose only literal of the conflict level is the negated UIP; UIP, marks, scores and stack are those of Analysed |
| Solver.SatSolver.BuildConflict | dagster/CnfManager.cpp:323-339 | keeps exactly the literals that are not redundant, in the order of the deque, the first one of the highest remaining level in front, aLevel being that level |
| Solver.SatSolver.AddClause | dagster/CnfManager.cpp:361-405 | a clause of two or more literals is stored in watch order under the literals at the back and the front of the deque |
| Solver.SatSolver.LearnClause | dagster/CnfManager.cpp:269-356 | at level 1 the formula is refuted and nothing changes; above it an entailed asserting clause is learned, and it, the scores, the stack and the next scan are exactly those of the relation Learns |
| Solver.SatSolver.PropagateBinaries | dagster/CnfManager.cpp:194-212 | all binary consequences of one literal are drawn, or a clause is learned |
| Solver.SatSolver.VisitClause | dagster/CnfManager.cpp:216-263 | a visit settles one reference of the watch list, implies a literal or learns a clause; one reference fewer is left |
| Solver.SatSolver.PropagateWatches | dagster/CnfManager.cpp:215-263 | the whole watch list of a false literal is settled, or a clause is learned |
| Solver.SatSolver.AssertLiteral | dagster/CnfManager.cpp:180-267 | true: the full invariant holds with nothing left to propagate; false: a conflict clause is learned; stored clauses are only permuted |
| Solver.SatSolver.Backtrack | dagster/CnfManager.h:135-143 | undoes exactly the assignments above level b and keeps the invariant; stack, remembered signs and next scan are those of Unstacked |
| Solver.SatSolver.Decide | dagster/CnfManager.h:130-133 | opens one level and draws all consequences |
| Solver.SatSolver.AssertCL | dagster/CnfManager.h:126-128 | the asserting clause is asserted with all consequences, or leads to the next conflict |
| Solver.SatSolver.Backjump | dagster/SatSolver.cpp:176-206 | the level falls at every turn of the conflict loop, also when a restart happens; the scan of learned clauses returns to the newest, and scores are halved exactly at every 128th conflict |
| Solver.SatSolver.ScoreDecay | dagster/CnfManager.h:145-152 | both counters of every variable are halved, rounding down; order and positions stay |
| Solver.SatSolver.HandleConflict | dagster/SatSolver.cpp:167-207 | terminates: the formula is refuted, or the solver is ready to decide again, starting from the newest clause |
| Solver.SatSolver.SelectFromConflict | dagster/SatSolver.cpp:83-114 | the newest added clause without a true literal, among the 257 from nextClause down, gives its first free variable of highest score with the sign of the solver, or 0 if all of these are satisfied |
| Solver.SatSolver.BestFree | dagster/SatSolver.cpp:97-103 | the first free variable of the clause with the highest score among the free ones |
| Solver.SatSolver.SelectByOrder | dagster/SatSolver.cpp:117-134 | the first free variable of the order from nextVar on, with the sign of the solver, or 0 if there is none |
| Solver.SatSolver.SelectLiteral | dagster/SatSolver.cpp:61-79 | the literal of the newest unsatisfied added clause in the window if there is one, and otherwise that of the order; 0 when the order holds no free variable from the scan on |
| Solver.SatSolver.MarkSatisfied | dagster/SatSolver.cpp:249-272 | fails exactly if the clause has no true literal; leaves the marks alone if a true literal is marked; otherwise marks the least variable among the true literals from the last positive one on, or from the first if none is positive |
| Solver.SatSolver.VerifyAndTrim | dagster/SatSolver.cpp:241-309 | fails on a clause without a true literal; otherwise keeps a true literal in every checked clause and leaves assigned exactly the variables marked clause by clause and those of the blocking units |
| Solver.SatSolver.Run | dagster/SatSolver.cpp:139-214 | 0 only if unsatisfiable; 1 with an implicant of the formula, namely the trimming of the literals on the stack; 2 after reportingTime - 1 decisions; the exception only if a clause has two free literals that the scan lost, and without binary clauses a pause lost them |
| Solver.SatSolver.AddConflictClause | dagster/SatSolver.cpp:720-738 | the clause joins the formula the solver answers for |
| Solver.SatSolver.Reset | dagster/SatSolver.cpp:741-785 | the solver is ready for the extended formula, or that formula is unsatisfiable; nothing is lost any more, and the root literals found at loading hold again |
| Solver.SatSolver.AssertUnitClauses | dagster/CnfManager.cpp:156-166 | all consequences of the stack are drawn although its order changes on the way, or the formula is refuted and everything undone |
| Pausing.FirstSearch | dagster/SatSolver.cpp:139-214 | until a pause has happened no formula without binary clauses ends in the exception, whatever the reporting time, and the answers are right |
| Pausing.OnePause | dagster/SatSolver.cpp:151-155 | nor after one pause, if no clause has opposite literals either |
| Pausing.SearchAfterReset | dagster/SatSolver.cpp:741-785 | nor in a search after a reset, blocking clauses included, if the order has their variables |
| Pausing.PauseUntilEnd | dagster/SatSolver.cpp:151-155 | with a reporting time of 1, over every formula: the calls end in 0 exactly if unit propagation refutes the formula, in 1 exactly if it makes a literal of every clause true, and in the exception on all others |
| Pausing.OppositeLiterals | dagster/SatSolver.cpp:241-309 | the clause (1 -1), refused by the loader only, is satisfiable and one of these others |
| Pausing.SignsWords | dagster/SatSolver.cpp:151-155 | the clauses of Signs are those of all sign patterns with the given parity |
| Pausing.TwoPauses | dagster/SatSolver.cpp:151-155 | for every reporting time t of 2 or more: the clauses of even parity over 2t variables are satisfiable, and the third call ends in the exception after two pauses |
| StaleSlot.ThrowsUnpaused | dagster/SatSolver.cpp:139-214 | on a satisfiable formula of one unit and binary clauses the search, followed round by round from any state loading can leave, learns three units and ends with nothing to select and an open clause: the exception without a pause |
| StaleSlot.LoadFormula | dagster/CnfManager.cpp:86-142 | the state the solver loads this formula into is one of these |
| Enumeration.Worker.LoadIntoMessage | dagster/CnfManager.cpp:465-478 | the message is the projection of the assignment on the interface |
| Enumeration.Worker.ResetForNext | dagster/Worker.cpp:147-162 | blocks the cube just sent; false after a non-empty cube means that nothing is left |
| Enumeration.Worker.SendSolution | dagster/Worker.cpp:100-112 | one more cube joins the ones sent; when there is to be no further one, they cover everything |
| Enumeration.Worker.Generate | dagster/Worker.cpp:87-104 | one call of run and, if it found a solution, its sending: exactly one more cube, or none |
| Enumeration.Worker.Round | dagster/Worker.cpp:87-113 | the cubes sent stay valid; the tag is decided by the last result: in the mode for one solution at most one is sent and then a request, otherwise at most max(1, interrupt), and a request means that the cubes are complete |
| Enumeration.CubeInside | dagster/SatSolver.cpp:241-309 | every assignment of the cube of an implicant extends, off the interface, to a model |
| Enumeration.CubeContradicts | dagster/SatSolver.cpp:274-303 | a cube found after blocking contradicts each earlier one |
| Enumeration.SentMore | dagster/Worker.cpp:90-113 | a new solution keeps all cubes pairwise contradictory and inside the projection |
| Enumeration.ExhaustedCovers | dagster/Worker.cpp:94-96 | when formula and blocking clauses are unsatisfiable, every model falls in a cube that was sent |
| Enumeration.EmptyCovers | dagster/Worker.cpp:159-160 | the empty cube covers all models |
| Enumeration.ExactEnumeration | dagster/Worker.cpp:90-113 | an assignment is a projected model exactly if it lies in a cube, and it lies in at most one |
| Enumeration.CubesBounded | dagster/Worker.cpp:90-113 | pairwise contradictory cubes over n variables are at most 2^n |
| Enumeration.SentBounded | dagster/Worker.cpp:90-113 | the number of solutions sent is at most the number of interface assignments |
| Organiser.MasterOrganiser.RemoveMessage | dagster/MasterOrganiser.cpp:66-74 | takes the message, and only it, from every worker and from the buffer |
| Organiser.MasterOrganiser.Compact | dagster/DisorderedArray.h:57-63 | removal by overwriting with the last entry keeps exactly the other messages |
| Organiser.MasterOrganiser.GetMinMaxCount | dagster/MasterOrganiser.cpp:78-100 | the returned messages are the first in the buffer with the least and with the greatest load, idle and empty cases included |
| Organiser.MasterOrganiser.MoveOne | dagster/MasterOrganiser.cpp:115-130 | one worker changes from the fullest message to the emptiest: the first that is only about to start on it, and only if there is none the first that is working on it; the sum of squared loads falls |
| Organiser.MasterOrganiser.AllocateAssignments | dagster/MasterOrganiser.cpp:104-134 | terminates with every message at the floor or ceiling of its share, by the steps of the relation Allocated, and leaves an even allocation alone |
| Organiser.MasterOrganiser.RefreshExcept | dagster/MasterOrganiser.cpp:137-143 | marks exactly the other workers on messages for the same node |
| Organiser.AllocatedOnce | dagster/MasterOrganiser.cpp:104-134 | the allocation is determined by the state it starts from |
| Organiser.WorkingDisturbedLast | dagster/MasterOrganiser.cpp:116-130 | a worker with a message of its own and no reassignment gets one only at a step at which its message is the fullest and no worker is merely about to start on it |
| Organiser.SquaresMoved | dagster/MasterOrganiser.cpp:112-130 | the sum of squared loads changes by 2 * (target load - source load) + 2 when a worker moves between buffered messages |
| Organiser.Conserved | dagster/MasterOrganiser.cpp:104-134 | every worker is on exactly one message: the loads add up to the number of workers |
| Organiser.WithinOne | dagster/MasterOrganiser.cpp:112-133 | loads within one of each other are the floor or the ceiling of the mean |
| Organiser.NoneUncovered | dagster/MasterOrganiser.cpp:104-134 | no message is without a worker while messages do not outnumber workers |
| Protocol.Master.Top | dagster/Master.cpp:119-173 | the turn up to the receive is a step of the protocol: generation, termination, allocation, replies |
| Protocol.Master.Generate | dagster/Master.cpp:120-131 | messages of the supply are added in order, those of finished subgraphs being discarded, and no more of them than needed to match the workers |
| Protocol.Master.ReplyAll | dagster/Master.cpp:150-173 | every polled worker gets exactly one reply, others none |
| Protocol.Master.Receive | dagster/Master.cpp:175-229 | the new state of each tag, in every mode: a solution marks the other workers on its node; only a terminal one that is in time is kept, and then modes 0 and 3 terminate, mode 2 drops the subgraph and counts it as finished, mode 1 goes on |
| Protocol.Master.FinishSubgraph | dagster/Master.cpp:197-211 | exactly the messages of the solved subgraph leave the buffer, although it is compacted while scanned |
| Protocol.InitInv | dagster/MasterOrganiser.cpp:44-54 | the start, with every worker polled, satisfies the invariant |
| Protocol.StepKeeps | dagster/Master.cpp:119-229 | every step of master or worker keeps the invariant |
| Protocol.RunKeeps | dagster/Master.cpp:119-229 | so it holds in every state of every run |
| Protocol.OnePhase | dagster/Worker.cpp:66-120 | each worker is waiting, has a reply in flight, computes, or has a closing report in flight, exclusively; it is polled exactly when it waits |
| Protocol.NoDeadlock | dagster/Master.cpp:175-177 | the master never blocks in its receive while no worker will move |
| Protocol.PollsAreLoaded | dagster/Worker.cpp:87-91 | a worker told to go on holds an unfinished assignment |
| Protocol.KillWhenAllWait | dagster/Master.cpp:136-142 | kill signals are sent only when every worker waits |
| Protocol.OtherSolutions | dagster/Master.cpp:189-219 | a solution that is not one of a terminal node, or comes while terminating, changes nothing but the marks for a refresh, in every mode |
| Protocol.OnlyTerminal | dagster/Master.cpp:195-219 | a solution is kept, or the search ended with messages in the buffer, only by a report from a terminal node |
| Protocol.KnownKept | dagster/Master.cpp:119-229 | no step forgets a message: it can be generated, has been, or is one of a finished subgraph |
| Protocol.NothingLost | dagster/Master.cpp:119-229 | a run stops with a solution in the modes that want one only; otherwise the supply is used up and every message that was in it at any time was exhausted by a worker or, in mode 2, belongs to a solved subgraph; without any solution kept everything was exhausted |
| Protocol.EveryMessageCovered | dagster/Master.cpp:144-173 | after a turn every buffered message has a worker |
| Bdd.EncodeNegatedCnf | dagster/BDDSolutions.cpp:669-798 | the emitted clauses, mapped back, are the node rules B1 to B6, the constants and the root unit |
| Bdd.PathEncodeNegatedCnf | dagster/BDDSolutions.cpp:847-1034 | the emitted clauses, mapped back, are the path rules T1 to T4, P1, P2, the constants and the root unit |
| Bdd.CompileNegatedCnf | dagster/BDDSolutions.cpp:600-663 | one clause for each cube; the numbers are those of different variables in the order in which they first occur |
| Bdd.NumbersDistinct | dagster/BDDSolutions.cpp:600-663 | every variable of a compiled formula has one number |
| Bdd.MapBack | dagster/BDDSolutions.cpp:81-106 | numbers of the support become variables again, auxiliary numbers stay |
| Bdd.NodeMeaning | dagster/BDDSolutions.cpp:745-786 | the six clauses say that the node variable is the value of the child chosen |
| Bdd.MinisatUnique | dagster/BDDSolutions.cpp:669-798 | in every model each node variable has the value of its node: the extension is unique |
| Bdd.MinisatCorrect | dagster/BDDSolutions.cpp:669-798 | an assignment extends exactly when no completed solution holds |
| Bdd.PathsCorrect | dagster/BDDSolutions.cpp:847-1034 | the same for the path-based clauses |
| Bdd.PathsUnique | dagster/BDDSolutions.cpp:847-1034 | the path-based extension is unique as well: nodes and edges of the path taken |
| Bdd.CubesCover | dagster/BDDSolutions.cpp:617-648 | an assignment is in a cube exactly when a completed solution holds |
| Bdd.CubesCorrect | dagster/BDDSolutions.cpp:617-648 | the clauses of the cubes hold exactly when no completed solution holds |
| Bdd.Interchangeable | dagster/BDDSolutions.cpp:68-79 | all three encodings extend exactly the same assignments |
| Layering.RecursiveForwardFails | dagster/Dag.cpp:346-358 | fails exactly if a walk exceeds the maximal depth |
| Layering.Dag.CheckConsistency | dagster/Dag.cpp:372-388 | accepts exactly graphs without repeated connections and without walks beyond the maximal depth |
| Layering.NoCycle | dagster/Dag.cpp:384-387 | an accepted graph has no cycle, and ranks grow along every walk |
| Layering.PutNew | dagster/Dag.cpp:421-443 | giving a neighbour a depth keeps the bounds and leaves fewer nodes without one |
| Layering.PutLower | dagster/Dag.cpp:436-443 | lowering a predecessor keeps the bounds given by the topological rank, and the slack falls |
| Layering.Dag.ScanForward | dagster/Dag.cpp:421-431 | exactly the successors without a depth get the next depth and join the subgraph; all have one afterwards |
| Layering.Dag.ScanReverse | dagster/Dag.cpp:432-444 | exactly the predecessors without a depth, or not above the node, get the depth before it and join the subgraph; all lie lower afterwards |
| Layering.Dag.Relax | dagster/Dag.cpp:417-447 | terminates with no edge left to relax |
| Layering.FinishSubgraph | dagster/Dag.cpp:448-456 | the finished subgraph is closed under connections, layered, and starts at 0 |
| Layering.Dag.AssignDepthsAndStatus | dagster/Dag.cpp:392-468 | depths grow along every edge, start at 0 in each component and stay within max_depth; one index for each weakly connected component; sources get status 1; max_depth is the greatest difference of two depths given in one subgraph at any time |
| Determinant.Problem.AddAXClause | Benchmarks/determinant/determinant.py:63-76 | the added clauses hold exactly if an odd number of the literals hold |
| Determinant.XorMeaning | Benchmarks/determinant/determinant.py:63-76 | the 2^(L-1) sign patterns together mean the exclusive or, for any length L |
| Determinant.Problem.HalfAdder | Benchmarks/determinant/determinant.py:79-91 | carry is the conjunction, output the exclusive or |
| Determinant.Problem.FullAdder | Benchmarks/determinant/determinant.py:94-110 | carry is the majority, output the parity |
| Determinant.Problem.TerminatingAdder | Benchmarks/determinant/determinant.py:113-124 | parity, and no overflow of equal signs |
| Determinant.Problem.Add | Benchmarks/determinant/determinant.py:127-142 | the row of adders means addition without overflow |
| Determinant.AdderSound | Benchmarks/determinant/determinant.py:127-142 | accepted words are a sum of integers in two's complement, at any width |
| Determinant.AdderComplete | Benchmarks/determinant/determinant.py:127-142 | every sum that fits is accepted, with its carries |
| Determinant.Problem.GateInteger | Benchmarks/determinant/determinant.py:145-153 | the output is the integer or zero, as the gate says |
| Determinant.Problem.AssertIsZero | Benchmarks/determinant/determinant.py:196-199 | all bits are zero |
| Determinant.Problem.AssertIsPositive | Benchmarks/determinant/determinant.py:207-210 | some bit is set and the sign is not |
| Determinant.Problem.AssertIsEqual | Benchmarks/determinant/determinant.py:213-218 | all bits agree |
| Determinant.Problem.WriteElement | Benchmarks/determinant/determinant.py:280-297 | one element of the product: gated terms, their partial sums and the verdict |
| Determinant.Problem.WriteMatrixIdentityConstraint | Benchmarks/determinant/determinant.py:276-297 | the clauses mean the constraint of all elements |
| Determinant.IdentitySound | Benchmarks/determinant/determinant.py:276-297 | a reading of the clauses has M * X = c * Id with c > 0 |
| Determinant.IdentityComplete | Benchmarks/determinant/determinant.py:276-297 | matrices with M * X = c * Id, c > 0, and sums that fit satisfy the constraint |
| Determinant.ModelsAreInverses | Benchmarks/determinant/determinant.py:276-297 | every model of the emitted clauses decodes to such matrices |
| Determinant.InversesAreModels | Benchmarks/determinant/determinant.py:276-297 | every such pair of matrices gives a model of the emitted clauses |
| Ramsey.IndexHolds | Benchmarks/ramsey/constraints.cc:168-194 | what the literals of a unary number mean; index 0 means "zero" and its negation |
| Ramsey.SumForced | Benchmarks/ramsey/constraints.cc:229-259 | the clauses force the unary sum |
| Ramsey.SumSatisfies | Benchmarks/ramsey/constraints.cc:229-259 | the unary sum satisfies each clause |
| Ramsey.Problem.EmitSum | Benchmarks/ramsey/constraints.cc:229-259 | exactly these clauses are emitted |
| Ramsey.TotalsSum | Benchmarks/ramsey/constraints.cc:198-260 | two totalizers and the sum of their outputs are a totalizer, with exactly one extension |
| Ramsey.Problem.AddCardinalityConstraint | Benchmarks/ramsey/constraints.cc:198-264 | output k is true exactly if at least k inputs are; every input assignment has exactly one extension |
| Ramsey.OrderMeaning | Benchmarks/ramsey/constraints.cc:286-291 | over unary counts the order clauses mean that counts do not increase |
| Ramsey.Problem.AddColourSymmetryBreaking | Benchmarks/ramsey/constraints.cc:270-292 | an assignment extends exactly if the colour counts do not increase with the colour |
| Ramsey.NodeMeaning | Benchmarks/ramsey/constraints.cc:103-113 | the four clauses: not both, and the new variable is their disjunction |
| Ramsey.ForestJoins | Benchmarks/ramsey/constraints.cc:99-131 | joining two tops keeps the number of true tops equal to the number of true inputs |
| Ramsey.Problem.Level | Benchmarks/ramsey/constraints.cc:94-132 | one level leaves fewer tops with the same meaning |
| Ramsey.TreeMeaning | Benchmarks/ramsey/constraints.cc:73-135 | the tree extends exactly with at most one true input, its root says whether there is one, and with the root unit exactly one is true |
| Ramsey.Problem.TreeAtMostOne | Benchmarks/ramsey/constraints.cc:73-135 | extends exactly with at most one true input, by pairs below four variables |
| Ramsey.PairMeaning | Benchmarks/ramsey/constraints.cc:28-59 | the pairwise clauses, and with the clause of all variables exactly one |
| Ramsey.Problem.TreeExactlyOne | Benchmarks/ramsey/constraints.cc:61-71 | extends exactly if one input is true |
| Combination.ResolveSortedVectors | dagster/utilities.cpp:86-119 | throws exactly if two literals oppose each other; otherwise the strictly sorted union of all literals below INT_MAX |
| Combination.Take | dagster/utilities.cpp:97-114 | taking the least head keeps the merge invariant |
| Combination.UnionUnique | dagster/utilities.cpp:86-119 | that union is unique |
| Combination.TableSolutions.AddMessage | dagster/TableSolutions.cpp:82-93 | the sorted message joins the table unless it is there already; bad nodes are refused |
| Combination.TableSolutions.Conflicts | dagster/TableSolutions.cpp:193-206 | reports exactly the messages that oppose one already chosen |
| Combination.TableSolutions.GetCombination | dagster/TableSolutions.cpp:183-231 | finds a compatible choice not emitted before, or all compatible choices below the prefix were emitted |
| Combination.TableSolutions.GetNewMessageCombination | dagster/TableSolutions.cpp:135-173 | NULL exactly if every compatible choice at the depth was emitted; otherwise one new choice is recorded and merged |
| Combination.CompatibleMerges | dagster/TableSolutions.cpp:158-166 | messages that are consistent in themselves and with each other merge without exception |
| Combination.EmittedOnce | dagster/TableSolutions.cpp:221-224 | no two emissions for a node combine the same messages |
| Combination.StillCompatible | dagster/TableSolutions.cpp:89-89 | further messages leave earlier choices what they were |
| Unranking.Cr | Benchmarks/gensat/ggensata.c:53-61 | the binomial coefficient, 0 outside the triangle |
| Unranking.Absorption | Benchmarks/gensat/ggensata.c:58-58 | each step of the product divides exactly |
| Unranking.GeneRepComb | Benchmarks/gensat/ggensata.c:80-91 | for a number below the coefficient, the increasing subset of that lexicographic rank |
| Unranking.SubsetsComplete | Benchmarks/gensat/ggensata.c:80-91 | every increasing subset is in the list |
| Unranking.SubsetsOrdered | Benchmarks/gensat/ggensata.c:80-91 | the list of subsets is in strict lexicographic order |
| Unranking.RankOfEntry | Benchmarks/gensat/ggensata.c:80-91 | the entry at k is the subset with exactly k subsets before it |
| Unranking.RankBijective | Benchmarks/gensat/ggensata.c:80-91 | ranks are below the coefficient and determine the subset |
| Unranking.Powi | Benchmarks/gensat/ggensata.c:64-77 | the power |
| Unranking.GeneRepInst | Benchmarks/gensat/ggensata.c:94-103 | the signs spell the number in binary, all negative if it is too large |
| Unranking.ValueInjective | Benchmarks/gensat/ggensata.c:94-103 | different sign vectors spell different numbers |
| Unranking.ClauseCodes | Benchmarks/gensat/ggensata.c:145-155 | different clauses are coded by different pairs of numbers in range |
| Unranking.ClauseExists | Benchmarks/gensat/ggensata.c:145-155 | every pair of numbers in range codes a clause |
| Unranking.Generate | Benchmarks/gensat/ggensata.c:143-155 | each clause drawn has r different variables of 1 to n and is the one coded by the numbers drawn |
| Ranges.RangeSet.Find | dagster/RangeSet.h:127-166 | membership |
| Ranges.RangeSet.Add | dagster/RangeSet.h:47-123 | the buffer stays canonical, gains exactly m and equals what a scan from the left gives; data_size counts new members only |
| Ranges.RangeSet.AddBetween | dagster/RangeSet.h:102-122 | between two ranges: join, extend or insert |
| Ranges.AddedMeaning | dagster/RangeSet.h:47-123 | the scan from the left adds exactly one member and keeps ranges sorted, disjoint and apart |
| Ranges.Splice | dagster/RangeSet.h:102-121 | replacing neighbouring ranges by one that covers them and m is the addition of m |
| Ranges.Cardinality | dagster/RangeSet.h:36-38 | data_size is the cardinality of the set |
| Ranges.Unique | dagster/RangeSet.h:31-33 | the buffer is determined by its members |
| Ranges.OrderIndependent | dagster/RangeSet.h:47-123 | the order of insertion does not matter |
| Ranges.ListedRestores | dagster/Dag.cpp:280-284 | inserting the listed members rebuilds the buffer |
| Wire.Cnf.PopulateFromClauses | dagster/Cnf.cpp:1019-1033 | counts, lengths and the greatest variable of the clauses |
| Wire.Cnf.GetDehydratedSize | dagster/Cnf.cpp:250-255 | the length of the format |
| Wire.Cnf.Dehydrate | dagster/Cnf.cpp:258-271 | writes exactly the format from an offset on and nothing else |
| Wire.Cnf.Hydrate | dagster/Cnf.cpp:274-297 | reads the formula back, within the buffers allocated |
| Wire.CnfRoundTrip | dagster/Cnf.cpp:250-297 | a formula written and read back is the same |
| Wire.Message.GetDehydratedSize | dagster/Message.cpp:71-76 | the length of the format, nested formula included |
| Wire.Message.Dehydrate | dagster/Message.cpp:79-92 | writes exactly the format, with its length in slot 0 |
| Wire.Message.Hydrate | dagster/Message.cpp:95-107 | reads every transmitted field back |
| Wire.MessageRoundTrip | dagster/Message.cpp:71-107 | a message written and read back is the same; the announced size is the one written |
| DagWire.Dag.GetDehydratedSize | dagster/Dag.cpp:277-306 | the length of the format |
| DagWire.Dag.Dehydrate | dagster/Dag.cpp:309-339 | writes exactly the format, with its length in slot 0 |
| DagWire.Dag.Hydrate | dagster/Dag.cpp:222-273 | reads sets, connections and edge literals back |
| DagWire.StepReporting | dagster/Dag.cpp:238-243 | one number of the reporting set is read, or the stage ends |
| DagWire.StepClauses | dagster/Dag.cpp:244-253 | one number of a clause set is read, or the next node or stage begins |
| DagWire.NextEdge | dagster/Dag.cpp:254-258 | an edge is read next if any is left, nodes without edges being passed over |
| DagWire.StepLiterals | dagster/Dag.cpp:262-268 | one literal of an edge is read, or the edge ends |
| DagWire.DagRoundTrip | dagster/Dag.cpp:222-339 | a graph written and read back is the same, range sets included; the announced size is the one written |

## Left out

- Solver.SatSolver.Run: the exception is shown to need a lost pair, not to follow from one, because which clauses stay open depends on the later choices; for a reporting time of 1 PauseUntilEnd is exact.
- Solver.SatSolver.Run: a reporting time below 1 (no pauses), gnovelty solutions, suggestions and the strengthener are not modelled.
- Solver.SatSolver.SelectLiteral: suggestions are not modelled, and the test that ends a search early (short_stopping) is taken to be off.
- Solver.SatSolver.UpdateScores: the counters are unbounded, while those of the source are 32 bits wide.
- Solver.SatSolver.constructor: clauses are taken to be free of duplicate literals, as the loader leaves them (dagster/Cnf.cpp:368-376); the option that asserts pure literals is not modelled; the sign of a variable outside the order, which the source leaves uninitialised, starts as negative.
- Solver.SatSolver.Backjump: whether a restart happens is an arbitrary choice at every conflict.
- Pausing.FirstSearch: the guard, no clause of two literals, is sufficient and not necessary; whether a stale slot is ever promoted past the scan depends on the whole search.
- Pausing.TwoPauses: for reporting times above 1 an input with two pauses is given for each, not the exact set of formulas.
- StaleSlot.ThrowsUnpaused: the search is followed by a machine for unit and binary clauses with one open decision, in which every learned clause is a unit; its scores, slots and signs are those of the class and its start is the one of the class, but its rounds are not tied to the method Run. Restarts go to level 1, where a learned unit leads anyway, and decay comes after 128 conflicts only.
- Enumeration.Worker.Round: a round ends the enumeration with a request, a poll or the exception, whose cause is the one stated for the solver; loading the clauses of a node and the assignment it was given is not modelled.
- Preprocessor.Simplify: without eager rebuilding only the UNSAT answer and the consistency of the assignment are stated, as no formula is written; an input with an empty clause is excluded, as the source asserts.
- Layering.Dag.AssignDepthsAndStatus: the sentinel INT_MIN for "no depth yet" is an option value, and depths are unbounded integers.
- Bdd.Interchangeable: the cubes need diagrams that test a variable at most once on a path, which ordered diagrams do; diagrams are a table with children first, and reduction, reordering and reference counts of the library are not part of the model.
- Bdd.PathEncodeNegatedCnf: nodes and edges are visited in the order of the table, while the source leaves the order of its unordered maps open; the set of clauses is the same.
- Protocol.Master.Generate: the messages the solutions interface can still generate are given as a list without repetitions; in a run the list grows by arbitrary messages when a solution arrives.
- Protocol.NothingLost: in the modes that want one solution nothing is said of the work dropped once there is one. What the supply gains by a solution is the subject of Combination, not of the protocol; whether a solution is terminal is the answer of the solutions interface.
- Protocol.Master.Receive: of the order of the messages left in the buffer only the set is stated; RemoveMessage states the order.
- Protocol.NoDeadlock: the channels deliver in order and lose nothing; message contents are identities, and the solving of a worker is any finite sequence of solutions and a closing report.
- Combination.TableSolutions.GetNewMessageCombination: that choices come in lexicographic order is not stated, as nothing relies on it; registering completed solutions as negated clauses is not modelled.
- Ramsey.Problem.AddColourSymmetryBreaking: the edge variables are taken to be numbered before the auxiliary ones, and at least one colour is needed, without which the loop bound of the source underflows.
- Determinant.Problem.WriteMatrixIdentityConstraint: the assignment of clauses to nodes is not modelled, and the bit resolution is at least 2.
- Unranking.Generate: the double in cr is a real number, and the products of powi and of the sign number are unbounded; only the generator itself is reduced to 64 bits.
- DagWire.Dag.Hydrate: the fields computed by generate_from_minimal are the subject of Layering; range sets are held as buffers, with the function that RangeSet.Add is proved to compute.
- Ranges.RangeSet.Add: the arithmetic of the range ends is unbounded.
- Checkpoints, logging, statistics, MPI, file parsing, command line, viewers and scripts: input and output without an argument behind them.
- purge_negative_literals, the neighbourhood builders and ReversableIntegerMap: declared unsafe by the source, deprecated or self-evident.
- BDD tables as message stores (add_message and get_new_message_combination of BDDSolutions): their meaning rests on library operations that are not part of this model.
