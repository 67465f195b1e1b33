# Horn-ICE decision tree learning: a verified model

The repository learns decision trees from *Horn-ICE samples*, that is, from data points some of which
are labelled and from Horn constraints between them, and uses the learner to solve systems of
constrained Horn clauses (CHCs).  This project models the learner (`hice-dt`) and the part of the CHC
teacher (`chc_verifier`) that drives it, and proves them right.  The sources that both directories
contain are modelled once, from `hice-dt`.

The modules follow the program, bottom up.

| module | models |
|---|---|
| `Horn`, `Clauses`, `Worklist`, `Backup`, `HornSolver` | the Horn solver: unit propagation, backward propagation by markings, and why both are enough |
| `HornAssignments` | random complete Horn assignments, used for scoring |
| `Tree`, `Slices`, `Sorting`, `Jobs`, `JobManager`, `TreeShape`, `Learner` | the tree learner as a state machine over slices, holes and labels |
| `Runs` | the tree learner as a transition system: the results it may have, for every choice it makes |
| `Unsplittable`, `BoundExample` | when and why learning ends without a split, and samples on which bounds fail or suffice |
| `Horndini`, `Conjunctions` | Houdini for Horn constraints, and the prephase that turns conjunctions into trees |
| `Bounds`, `Driver` | bounded cuts, the constraints they add, and the loop over increasing bounds |
| `Encoding`, `Translation`, `LearnerInterface` | from points of relations to attribute vectors, from trees to formulas, and the sample in between |
| `Substitute`, `Checker`, `Cegis` | substitution of conjectures into CHCs, the check of a CHC, and the teacher's loop |

The main results build on one another:

1. `HornSolver.Solver.Solve` is a decision procedure, and the labels it leaves are *closed*: exactly the
   points that are true (false) in every model are labelled, all others false is a model, and each other
   point can be true.  The proof rests on the order of the stack (no false point is processed
   before the last true one), on the marking being the derivability relation of the open clauses, and on
   that staying so although clauses are settled and labels added later.
2. `Learner.Learn` returns only trees consistent with the sample, for every order in which slices are
   picked and every way splits are scored, always ends, and without a bound cannot fail on pairwise
   distinct data points.  Its result is that of a run of a transition system on values (`Runs`), in which only
   the slice and the cut are free: whether a slice becomes a leaf, which label the leaf gets, and all
   labels that follow are determined.  It fails only where some model of the sample tells two points
   apart that cannot be separated: equal ones, or, with a bound b, points below and above −b.
3. `Driver.LearnDecisionTree` returns a tree consistent with the original sample, with prephase and
   bounds in any setting; on distinct points it returns one if and only if the sample is satisfiable.  The
   prephase returns the strongest conjunctions if any are consistent, and bounds that suffice keep all
   cuts within them.
4. `LearnerInterface.Interface.GetConjectures` returns conjectures if and only if the counterexamples
   added so far do not contradict each other, and over integers these fulfil all of them.
5. `Cegis.Teacher.Learn` therefore answers rightly, given a solver that is right about expressions without
   relations: conjectures returned make every CHC true, and a failure of the learner means that there is
   no solution; over integers every round that leaves a CHC with a relation unsatisfied adds a
   counterexample the sample did not have.

A data point is its index; the solver's false data point is one more index, which is always labelled
false.  A total labelling is the set of the points it makes true.  Objects the program updates are
classes here (`Sample`, `Solver`, `DecisionTree`, `Manager`, `Bound`, `TeacherPoint`, `Interface`,
`Teacher`), and their methods are proved against predicates and functions on values.  Iteration over hash
sets and picks by entropy or at random are arbitrary choices, so all results hold for each of them.  Where a
method sorts, callers use only that the slice is permuted and sorted by the key.

In two places the code does not do what one would expect; the model follows the code.  The comment at
`hice-dt/include/horn_solver.h:170` says that both sets are empty after a failed solve; in fact the positive set
may have grown (`Backup.FailureGrowsPositive`), while the negative one is unchanged, which is why `is_leaf` need
only clear the positive one.  The teacher's conjectures for Boolean arguments conjoin the attribute with a constant instead
of comparing it; `Translation.TranslateMeaning` says exactly which points this loses.

## Model

| member | source | states |
|---|---|---|
| `HornSolver.Solver.Solve` | hice-dt/src/horn_solver.cpp:307-363 | `true` exactly if some total labelling extends the labels and both given sets and satisfies every constraint; the enlarged sets then have exactly the same models, and the labels together with them are *closed* (all remaining points false is a model, and every remaining point is true in some model); on failure the negative set is the one given, and the positive one is what the set-up found, or contains it if the set-up did not clash; the points' labels are restored |
| `Backup.SetUpForced` | hice-dt/src/horn_solver.cpp:183-234 | what the set-up adds to the positive points is in every set that contains the given ones and satisfies the constraints with a conclusion, even if it clashes |
| `Backup.FailureGrowsPositive` | hice-dt/src/horn_solver.cpp:316-338 | a failing call may return more positive points than it was given: the constraints []→0 and [0]→none |
| `Horn.EitherWay` | hice-dt/include/simple_job_manager.h:1098-1116 | after a successful solve every point still unlabelled can go either way: adding it alone as true, or alone as false, keeps the constraints satisfiable |
| `Horn.ClosedLabelsAreForced` | hice-dt/src/horn_solver.cpp:307-392 | under closed labels a point is labelled true (false) if and only if it is true (false) in every model |
| `Horn.AddedLabelsAreForced` | hice-dt/src/horn_solver.cpp:70-89 | whatever a successful solve adds to the sets is true, or false, in every model of what was given |
| `Horn.ClosedAllowsFalse` | hice-dt/include/simple_job_manager.h:445-462 | closed labels stay satisfiable when any set of unlabelled points is made negative |
| `Horn.ClosedAllowsTrue` | hice-dt/include/simple_job_manager.h:423-439 | closed labels stay satisfiable when any single unlabelled point is made positive |
| `Horn.ApplyModels` | hice-dt/src/horn_solver.cpp:100-120 | the models of the labels with two sets added are the models of the labels that contain the one and avoid the other |
| `HornSolver.Solver.KeepBackup` | hice-dt/src/horn_solver.cpp:148-235 | copies every constraint reduced by the true labels, fails only if nothing satisfies the input, and finds exactly the labels and positive points of one pass over the constraints up to the first clash |
| `HornSolver.Solver.BackupConstraint` | hice-dt/src/horn_solver.cpp:183-234 | one constraint: on success it is copied, derived or dropped as satisfied, with the same models; on failure every agreeing model of the copies violates it |
| `HornSolver.Solver.ReducePremises` | hice-dt/src/horn_solver.cpp:196-208 | removes exactly the premises labelled true and reports whether one is labelled false |
| `HornSolver.Solver.InsertClause` | hice-dt/src/horn_solver.cpp:138-143 | a clause is recorded once, in any position |
| `HornSolver.Solver.PopulateMetaData` | hice-dt/src/horn_solver.cpp:133-145 | every point starts with itself as its only mark, the false data point with none, and each open clause is recorded at every point it mentions |
| `HornSolver.Solver.FillWorklist` | hice-dt/src/horn_solver.cpp:101-120 | all points of both sets end up labelled and on the stack, and everything true lies above everything false |
| `HornSolver.Solver.VerifyConstraintsSatisfiability` | hice-dt/src/horn_solver.cpp:366-392 | empties the stack keeping the models; it can only fail while the negative set is still the one given, and then there is no model |
| `HornSolver.Solver.ProcessTop` | hice-dt/src/horn_solver.cpp:368-390 | one stack entry: it keeps the invariant and the models and decreases unlabelled points and open clauses, then the stack; once no true point is on the stack, it cannot fail and none comes back |
| `HornSolver.Solver.TakeTop` | hice-dt/src/horn_solver.cpp:368-371 | removing satisfied clauses from the popped point's list loses no open clause that matters |
| `HornSolver.Solver.RemoveSatisfied` | hice-dt/src/datapoint.cpp:51-62 | what the erase-and-restart loop leaves: every open clause stays, and only the first entry can be a satisfied one, because the restart steps over it |
| `HornSolver.Solver.ProcessTrue` | hice-dt/src/horn_solver.cpp:372-379 | all clauses of a true point are dealt with, or there is no model |
| `HornSolver.Solver.ProcessFalse` | hice-dt/src/horn_solver.cpp:380-388 | all clauses of a false point are dealt with; this never fails and pushes false points only |
| `HornSolver.Solver.PropagateTrue` | hice-dt/src/horn_solver.cpp:70-89 | unit propagation keeps the invariant and the models and leaves the clause dealt with; it fails only if there is no model |
| `HornSolver.Solver.PropagateFalse` | hice-dt/src/horn_solver.cpp:18-56 | backward propagation keeps the invariant and the models, never fails, and computes the marking at most once |
| `HornSolver.Solver.FalsifyMarks` | hice-dt/src/horn_solver.cpp:41-53 | all marks of a false point become false, without ever contradicting a label |
| `HornSolver.Solver.EnsureMarking` | hice-dt/src/horn_solver.cpp:37-40 | the marking is computed on first use, when no true point is on the stack, and then keeps meaning derivability |
| `HornSolver.Solver.RollBack` | hice-dt/src/horn_solver.cpp:123-130 | restores the labels saved before |
| `HornSolver.Solver.Run` | hice-dt/src/horn_solver.cpp:339-362 | from the backed-up clauses on: the same promise as the whole call |
| `HornSolver.Sample.SetClassification` | hice-dt/src/datapoint.cpp:38-48 | labels an unlabelled point; fails exactly on the opposite label, leaving the labels alone |
| `HornSolver.Solver.ComputeMarking` | hice-dt/src/horn_constraint.cpp:36-74 | the self-recursion ends, by the missing pairs of point and mark; marks only grow and stay sound, and all clauses not yet pending in an outer call are closed on return |
| `HornSolver.Solver.AddCommonMarks` | hice-dt/src/horn_constraint.cpp:40-64 | adds to the conclusion exactly the marks common to all premises, all sound, and shrinks the missing pairs if it adds any |
| `HornSolver.Solver.IsCommonMark` | hice-dt/src/horn_constraint.cpp:41-57 | the nested loops decide whether a mark is one of every premise |
| `HornSolver.Solver.ComputeCurrentMarking` | hice-dt/src/horn_solver.cpp:92-98 | from the initial marks, all open clauses are closed under common marks and all marks are sound |
| `Clauses.MarksAreDerivable` | hice-dt/src/horn_constraint.cpp:36-74 | at that fixpoint, m marks d if and only if d is derivable from m by the open, reduced clauses |
| `Clauses.CommonMarkDerives` | hice-dt/src/horn_constraint.cpp:58-63 | a mark common to all premises derives the conclusion |
| `Worklist.MarkKeeps` | hice-dt/src/horn_solver.cpp:37-40 | computing the marking keeps the solver's invariant at the point where it happens |
| `Worklist.UnmentionedDerivesItself` | hice-dt/src/horn_constraint.cpp:36-74 | a point that no open clause has as a premise derives nothing but itself |
| `Worklist.ConcludeTrueKeeps` | hice-dt/src/horn_solver.cpp:75-82 | deriving a conclusion keeps invariant and models and settles the clause |
| `Worklist.LastPremiseForcesTrue` | hice-dt/src/horn_solver.cpp:77-85 | a clause whose last premise became true forces its conclusion in every model; a false conclusion then means no model |
| `Worklist.ConcludeFalseKeeps` | hice-dt/src/horn_solver.cpp:25-36 | a false conclusion with one premise makes the premise false, which no label opposes, and keeps invariant and models |
| `Worklist.FalsifyKeeps` | hice-dt/src/horn_solver.cpp:41-53 | a mark of a false point is unlabelled at most, and making it false keeps invariant and models although the marking is not recomputed |
| `Worklist.ProcessedKeeps` | hice-dt/src/horn_solver.cpp:368-390 | a popped point whose clauses are all dealt with leaves the invariant whole again |
| `Worklist.TopDecides` | hice-dt/src/horn_solver.cpp:366-392 | on the stack, true points lie above false ones, so the top tells whether any true point is left |
| `Worklist.ExhaustedFalse` | hice-dt/src/horn_solver.cpp:366-392 | with an empty stack, making all unlabelled points false satisfies the residual clauses |
| `Worklist.ExhaustedTrue` | hice-dt/src/horn_solver.cpp:366-392 | with an empty stack, every unlabelled point is true in some model of the residual clauses |
| `Backup.SetupModels` | hice-dt/src/horn_solver.cpp:148-235 | the residual clauses after the set-up have the models of the original constraints |
| `Backup.ClashHasNoModel` | hice-dt/src/horn_solver.cpp:210-218 | a clash during the set-up means that there is no model |
| `Backup.ReducedEquivalent` | hice-dt/src/horn_solver.cpp:185-208 | dropping true premises and using the false data point as missing conclusion does not change what a constraint says |
| `Backup.FilledInv` | hice-dt/src/horn_solver.cpp:339-341 | after set-up and filling the stack, the solver's invariant holds |
| `Backup.ExhaustedClosed` | hice-dt/src/horn_solver.cpp:307-392 | with an empty stack, the labels are closed for the original constraints |
| `HornAssignments.CompleteAssignment` | hice-dt/include/simple_job_manager.h:1059-1137 | for every sequence of random picks the loop ends, the solver never fails, and the accumulated sets with the labels are a total model |
| `HornAssignments.RemoveAll` | hice-dt/include/simple_job_manager.h:1118-1136 | exactly the decided points leave the list, which gets shorter if there is one |
| `HornAssignments.DecidedCompletes` | hice-dt/include/simple_job_manager.h:1064-1137 | when no point is left, the closed labels are a total model |
| `HornAssignments.InitializeFractions` | hice-dt/include/simple_job_manager.h:1012-1030 | classified points, and only they, get the fraction 0 or 1 |
| `HornAssignments.EstimateFractions` | hice-dt/include/simple_job_manager.h:1035-1164 | the fraction of every point is its share of three models of the sample |
| `HornAssignments.SharesBounded` | hice-dt/include/simple_job_manager.h:1154-1161 | so every point has a fraction between 0 and 1, and a labelled point its label |
| `Tree.Reach` | hice-dt/src/output_visitor.cpp:27-58 | routing a point ends at a leaf or at a missing child |
| `Tree.FillReach` | hice-dt/src/job.cpp:30-32 | creating a node at an address reroutes exactly the points that reached the address |
| `Slices.StartKeeps` | hice-dt/include/learner.h:98-104 | the initial slice establishes the learning invariant |
| `Slices.PickKeeps` | hice-dt/include/simple_job_manager.h:1193-1200 | taking any slice off the list keeps the invariant |
| `Slices.RearrangeKeeps` | hice-dt/src/job.cpp:25-27 | permuting the points within a slice keeps the invariant |
| `Slices.LeafKeeps` | hice-dt/src/job.cpp:97-120 | creating a leaf, with labels that are closed again, keeps the invariant |
| `Slices.SplitKeeps` | hice-dt/include/learner.h:117-124 | a split job's node and slices keep the invariant |
| `Slices.FinishedConsistent` | hice-dt/include/learner.h:110-130 | with no slices left, the tree is consistent with all labels and constraints, routes no point to a missing child, and every point has a label |
| `Sorting.SortSlice` | hice-dt/src/job.cpp:25-27 | sorts the positions of the slice by the key, permuting them and touching nothing else |
| `Jobs.RunIntSplit` | hice-dt/src/job.cpp:61-94 | the two slices are nonempty, tile the old one and hold exactly the points the new node routes to each child |
| `Jobs.FindCut` | hice-dt/src/job.cpp:64-80 | both of the job's assertions hold for any separating cut, and the scan from the right finds the last point of the left part |
| `Jobs.RunCategoricalSplit` | hice-dt/src/job.cpp:18-59 | the slices are nonempty, tile the old one and hold exactly the points of their category; there are at least two unless the slice has one category |
| `Jobs.GroupByCategory` | hice-dt/src/job.cpp:34-57 | the runs of equal category tile the slice, one run per category |
| `Jobs.PartsSplit` | hice-dt/src/job.cpp:61-94 | tiles that are uniform in a key are routed as a node routes by that key |
| `Jobs.RunLeafCreation` | hice-dt/src/job.cpp:97-120 | creates the leaf and labels exactly the points of the two sets |
| `Jobs.TilesWeight` | hice-dt/include/learner.h:110-126 | tiling a slice into n slices turns 2·size−1 into 2·size−n |
| `JobManager.Manager.IsLeaf` | hice-dt/include/simple_job_manager.h:264-473 | a slice is reported as a leaf if and only if it can be made all-positive or all-negative consistently; it is positive if and only if it can be made all-positive; and the labels returned are exactly what follows from labelling it so |
| `JobManager.Manager.ScanLabels` | hice-dt/include/simple_job_manager.h:275-315 | which labels occur in the slice, and bounds on where the unlabelled points lie |
| `JobManager.Manager.TryLabel` | hice-dt/include/simple_job_manager.h:343-410 | giving one label to all open points of the slice: succeeds if and only if that is consistent; on failure the negative set is untouched by the solver |
| `JobManager.NoPositiveCanBecome` | hice-dt/include/simple_job_manager.h:442-462 | a slice without a positive point can always be made all-negative |
| `JobManager.SingletonCanBecome` | hice-dt/include/simple_job_manager.h:423-462 | a single point can always become a leaf |
| `JobManager.UnsplittableHasPositive` | hice-dt/include/simple_job_manager.h:1860-1860 | a slice that cannot become a leaf has a positive point, so the assertion that a classified point is present holds |
| `JobManager.Manager.FindBestSplit` | hice-dt/include/simple_job_manager.h:1550-1985 | for every scoring: the split returned is legal (a categorical attribute with two categories, or a cut at a data value, within the bound, with points on both sides), and none is returned exactly if there is no legal one |
| `JobManager.Manager.ScanCuts` | hice-dt/include/simple_job_manager.h:1677-1791 | the boundary scan finds a legal cut of the attribute if and only if there is one |
| `JobManager.Manager.TryCuts` | hice-dt/include/simple_job_manager.h:1672-1791 | the same, sorting the slice first |
| `JobManager.Manager.TryCategories` | hice-dt/include/simple_job_manager.h:1586-1626 | a categorical attribute is skipped exactly if the slice has one category |
| `JobManager.Manager.BestCategory` | hice-dt/include/simple_job_manager.h:1583-1652 | some splitting categorical attribute if there is one, whatever the scores |
| `JobManager.Manager.BestCut` | hice-dt/include/simple_job_manager.h:1658-1904 | some attribute with a legal cut if there is one, whatever the scores and wherever intrinsic values are zero |
| `JobManager.NoSplitSameData` | hice-dt/include/simple_job_manager.h:1911-1915 | if nothing splits an unbounded slice, all its points have the same data |
| `JobManager.LeafOrSplit` | hice-dt/include/simple_job_manager.h:1911-1915 | unbounded and on distinct data, a slice that cannot become a leaf can be split |
| `JobManager.Manager.GetNextJob` | hice-dt/include/simple_job_manager.h:1173-1398 | any slice may be picked; after the first split the job is executable and creates a leaf if and only if the slice can become one, a positive one if and only if it can become positive, and there is no job if and only if the slice can neither become a leaf nor be split |
| `JobManager.Manager.DecideJob` | hice-dt/include/simple_job_manager.h:1203-1280 | a leaf if and only if the slice can become one, a positive one if and only if it can become positive, otherwise a legal split, and "no split possible" if and only if there is neither; estimating fractions in between disturbs nothing |
| `TreeShape.FillShape` | hice-dt/src/job.cpp:83-84 | creating a leaf or an integer node keeps: addresses are unique, every cut has points of its own on both sides, and below the root there are integer nodes only |
| `TreeShape.ReachingOneCategory` | hice-dt/include/simple_job_manager.h:1583-1613 | below the root all points of a slice have one category, so there is never a second categorical split |
| `TreeShape.FinishedInBlocks` | hice-dt/include/learner.h:110-130 | if points are zero outside the attributes of their category, a finished tree tests, below each category, attributes of that category only |
| `TreeShape.JustifiedCuts` | hice-dt/include/simple_job_manager.h:1823-1823 | cuts are at values of points routed to them, so no attribute is cut above its largest value |
| `TreeShape.JustifiedComplete` | hice-dt/include/learner.h:110-130 | a finished tree has no missing child except for categories without points |
| `Runs.ConsequencesUnique` | hice-dt/src/horn_solver.cpp:307-363 | the labels that the learner goes on with after a leaf are determined: exactly the consequences |
| `Runs.LeafJobIsStep` | hice-dt/src/job.cpp:97-120 | executing a leaf job is a step of the transition system: points that can become a leaf do, a positive one if possible, with the labels that follow |
| `Runs.CutJobIsStep` | hice-dt/src/job.cpp:61-94 | executing a split is a step: points that cannot become a leaf are split at a cut at one of their values, within the bound |
| `Runs.FirstJobIsStep` | hice-dt/include/simple_job_manager.h:1176-1190 | the first step splits on the one categorical attribute |
| `Runs.StuckEnds` | hice-dt/include/simple_job_manager.h:1911-1915 | a run fails only where points wait that can neither become a leaf nor be split |
| `Runs.FinishedEnds` | hice-dt/include/learner.h:110-130 | a run succeeds when no point waits any more |
| `Learner.JobIsStep` | hice-dt/include/learner.h:117-124 | every job the manager hands out is a step, whatever slice and split it has chosen |
| `Learner.LearnStep` | hice-dt/include/learner.h:110-126 | one round is a step, keeps the invariant and the shape and decreases the sum of 2·size−1 over the slices plus the first-split flag; without a job nothing has changed |
| `Learner.LearnLoop` | hice-dt/include/learner.h:110-126 | the loop makes a run, and ends |
| `Learner.RunJob` | hice-dt/include/learner.h:117-124 | executing the job and adding its slices keeps the invariant and decreases the measure |
| `Learner.Learn` | hice-dt/include/learner.h:78-132 | the result is that of a run of the transition system, for every order of slices and every scoring; a tree is consistent with the labels given and those added; bounded cuts stay within the bound; "no split possible" only if some model of the sample tells two points of one category apart whose data are equal (without a bound), or which the bound cannot tell apart or which lie below and above −b in some attribute (with bound b); it always ends, and the list of points stays a permutation without duplicates |
| `Learner.IsConsistent` | hice-dt/include/learner.h:145-196 | on a tree defined on all data points the answer is right, both ways; on any tree a positive answer means that the points it makes true are a model |
| `Learner.CheckLabels` | hice-dt/include/learner.h:160-167 | compares the tree with the labels; the exception is reported only if a point is routed to a missing child |
| `Learner.CheckPremises` | hice-dt/include/learner.h:176-184 | whether all premises are true in the tree |
| `Learner.StillConsistent` | hice-dt/include/api_helper.h:295-336 | consistency with more labels is consistency with fewer |
| `Horndini.Learn` | hice-dt/include/horndini.h:274-386 | the result is admissible (satisfies all positives and all constraints) and contains every admissible choice of the initial predicates; failure means that there is no admissible one |
| `Horndini.ProcessPositives` | hice-dt/include/horndini.h:300-333 | only predicates false on a forced point are removed, so the result still contains every admissible choice and all those points satisfy it |
| `Horndini.ScanConstraints` | hice-dt/include/horndini.h:338-382 | a constraint is discharged only when all its premises satisfy the conjunctions, and its conclusion is then forced; without a conclusion nothing is admissible |
| `Horndini.ReducePremises` | hice-dt/include/horndini.h:343-360 | exactly the premises that satisfy their conjunction are removed |
| `Horndini.CheckSatisfies` | hice-dt/include/horndini.h:422-435 | a point satisfies a conjunction if none of its entries is zero |
| `Horndini.FinishedStrongest` | hice-dt/include/horndini.h:294-384 | when nothing is left to process, the conjunctions are admissible |
| `Conjunctions.GeneratePredicates` | hice-dt/include/horndini.h:153-194 | the derived intervals tile the predicate vector, and each piece holds exactly the predicates over the attributes of its own interval |
| `Conjunctions.GenerateDatapoints` | hice-dt/include/horndini.h:205-262 | entry j of a derived point says whether predicate j is true of the original one |
| `Conjunctions.ConjunctionTreeMeaning` | hice-dt/include/horndini.h:449-498 | the chain outputs true exactly if all selected predicates are true, on all integer data |
| `Conjunctions.ConjunctionsTreeMeaning` | hice-dt/include/horndini.h:398-411 | the tree outputs true on a point exactly if its derived point satisfies the conjunction of its category |
| `Conjunctions.SatisfiesIsAllTrue` | hice-dt/include/horndini.h:422-435 | a derived point satisfies a conjunction exactly if its predicates are true of the original point |
| `Conjunctions.StrongestDecides` | hice-dt/include/api_helper.h:205-227 | the tree of the strongest conjunctions is consistent with the whole sample, negatives included, if and only if some choice of predicates is |
| `Conjunctions.StrongestIsChoice` | hice-dt/include/horndini.h:274-386 | the result of Houdini is the strongest choice of predicates that makes the positive points true and satisfies the constraints |
| `Conjunctions.ConjunctionsDecide` | hice-dt/include/horndini.h:398-411 | on every datum, in the sample or not, the tree says whether the choice selects it |
| `Conjunctions.HorndiniPrephase` | hice-dt/include/api_helper.h:78-124 | a consistent tree results if and only if some choice of predicates over the original attributes is a model of the sample; a tree results if and only if some choice is admissible, and it decides every datum by the strongest admissible choice; it tests attributes of the right intervals only |
| `Bounds.IsDistinguishable` | hice-dt/src/datapoint.cpp:65-122 | true if and only if a categorical value differs or some cut within the bound separates two integer values |
| `Bounds.ValuesSeparableIffCut` | hice-dt/src/datapoint.cpp:92-118 | the case distinction on signs decides whether such a cut exists |
| `Bounds.GetIndistinguishableDatapoints` | hice-dt/src/boogie_io.cpp:519-551 | the added constraints hold of a labelling exactly if it treats all indistinguishable points alike |
| `Bounds.IndistinguishableAgree` | hice-dt/src/boogie_io.cpp:529-545 | every tree whose cuts are within the bound routes indistinguishable points alike |
| `Bounds.BoundedConsistency` | hice-dt/include/api_helper.h:273-288 | such a tree is consistent with the sample if and only if it is with the sample plus the added constraints |
| `Bounds.BoundTooSmall` | hice-dt/include/api_helper.h:343-358 | if the enlarged sample has no model, no tree within the bound is consistent with the sample |
| `Bounds.IndexesToConstraints` | hice-dt/src/boogie_io.cpp:331-384 | premises are the indexed points and the conclusion the first of the second set, or none; fails exactly if an index that is looked at is out of range |
| `Driver.Attempt` | hice-dt/include/api_helper.h:245-340 | the result of a run on the enlarged sample, from the consequences of a copy of the labels; a tree is consistent with the original sample and within the bound; a contradictory enlarged sample means no tree within the bound; "no split" only if some model tells two points apart whose data are equal, or, with bound b, which lie below and above −b in some attribute |
| `Driver.BoundedOutcome` | hice-dt/include/api_helper.h:273-288 | what an attempt finds for the enlarged sample holds for the original one |
| `Unsplittable.NoSplitSeparable` | hice-dt/include/simple_job_manager.h:1693-1696 | a slice without a split under a bound has two points that the bound can tell apart if and only if some attribute has a value below the least cut −b and another value above it |
| `Unsplittable.AlikeCanBecome` | hice-dt/include/simple_job_manager.h:420-471 | a slice whose points have the same value in every model can become a leaf |
| `Unsplittable.PairSeparable` | hice-dt/include/simple_job_manager.h:1693-1696 | the bound can tell two points of such a slice apart if and only if they lie below and above −b in some attribute |
| `Unsplittable.BoundedFailure` | hice-dt/include/api_helper.h:273-288 | with the constraints of a bound, learning fails only on two points that a model of the original sample tells apart and that lie below and above −b |
| `Unsplittable.UnboundedFailure` | hice-dt/include/simple_job_manager.h:1911-1915 | without a bound, learning fails on equal data points only |
| `Unsplittable.StraddledData` | hice-dt/include/simple_job_manager.h:1693-1696 | so with bound b it cannot fail if no attribute has values below and above −b |
| `Unsplittable.StuckExplained` | hice-dt/include/simple_job_manager.h:1911-1915 | a stuck slice has two points of one category that some model tells apart, with equal data without a bound, and indistinguishable or on both sides of −b with one |
| `BoundExample.BoundMissesCut` | hice-dt/include/simple_job_manager.h:1693-1696 | values −5 and 5, labelled true and false, bound 1: distinguishable, yet the slice of both is neither a leaf nor splittable; without a bound it is splittable |
| `BoundExample.AttemptFails` | hice-dt/include/api_helper.h:360-372 | on that sample every bounded attempt ends without a split |
| `BoundExample.AgreeingLabels` | hice-dt/include/simple_job_manager.h:331-335 | with both labels true, no attempt does |
| `BoundExample.EqualPoints` | hice-dt/include/simple_job_manager.h:331-335 | nor does one on equal data points whose labels agree |
| `BoundExample.BoundOneSuffices` | hice-dt/include/api_helper.h:295-336 | on the points (5,0) true, (9,1) false, (5,2) true, bound 1 suffices |
| `BoundExample.OtherTree` | hice-dt/include/api_helper.h:295-336 | although a tree with another cut is consistent with them |
| `Driver.LoopOverBounds` | hice-dt/include/api_helper.h:239-375 | ends for every start bound from 1 on, with the result of the first attempt that ends, under the bound, its double, and so on while a bound is used, and without one after that |
| `Driver.LoopOutcome` | hice-dt/include/api_helper.h:239-375 | any tree is consistent with the original sample, and a failure is that of the unbounded attempt or of the categories |
| `Driver.BoundsTakeEffect` | hice-dt/include/api_helper.h:239-375 | with bounds, the tree's cuts are within every bound of the sequence that suffices, that is, with which the enlarged sample has a model and no model of the sample tells apart two points on both sides of −b |
| `Driver.SufficientAttempt` | hice-dt/include/api_helper.h:289-340 | an attempt under a bound that suffices returns a tree |
| `Driver.LearnDecisionTree` | hice-dt/include/api_helper.h:144-375 | with the prephase, if some conjunctions are a model of the sample, the tree of the strongest ones; otherwise the result of the loop over bounds, with all cuts within every bound that suffices; any tree is consistent with the sample as given; on distinct points and one category there is one if and only if the sample is satisfiable; on block data it tests attributes of the right category only |
| `Encoding.TeacherPoint.AddDerivedValues` | chc_verifier/include/datapoint.h:88-105 | appends the sum and difference of every integer pair i<j, in the order of the attributes |
| `Encoding.TeacherPoint.GetIntData` | chc_verifier/include/datapoint.h:86-131 | despite the `<=` bound and the double increment the vector has exactly one entry per attribute, and one more only for a point without arguments: the values of the relation's attribute expressions from its base on, and zeros elsewhere |
| `Encoding.TermsOf` | chc_verifier/include/learner_interface.h:136-181 | the attribute expressions of a relation, in order: arguments, then sum and difference of each integer pair |
| `Encoding.AllTermsAre` | chc_verifier/include/learner_interface.h:136-181 | these are exactly the arguments and the sums and differences of integer arguments i<j, each once |
| `Encoding.NumberAttributes` | chc_verifier/include/learner_interface.h:105-189 | each relation gets a contiguous block, the blocks tile the attributes, and entry k of a block is expression k of the relation; refused exactly if a relation has no arguments |
| `Translation.TranslateMeaning` | chc_verifier/include/dt_to_z3_exp.h:143-285 | the formula is true of the arguments if and only if the tree outputs true on their vector and every Boolean attribute tested on the way is true; that is, exactly the tree's meaning over integer sorts |
| `Translation.SideMeaning` | chc_verifier/include/dt_to_z3_exp.h:165-282 | every combination of leaf and subtree children contributes its side exactly when it is positive |
| `Translation.IntSortedPasses` | chc_verifier/include/dt_to_z3_exp.h:182-185 | over integer-sorted arguments the extra condition is void |
| `Translation.NegationLost` | chc_verifier/include/dt_to_z3_exp.h:189-209 | a tree for the negation of a Boolean argument is translated to an unsatisfiable formula |
| `Translation.GetConjectures` | chc_verifier/include/dt_to_z3_exp.h:46-140 | a conjecture for every relation: a leaf at the root goes to all, a child is translated, a missing child takes over the formula of the one before it, and the rest are truth values |
| `Translation.ConjecturesMean` | chc_verifier/include/dt_to_z3_exp.h:101-140 | for a tree as the learner returns it, the conjecture of a relation is true of a point if and only if the tree is and every Boolean attribute tested on the way is true; for integer arguments it agrees with the tree |
| `Translation.VectorEncodes` | chc_verifier/include/datapoint.h:86-131 | the vector that is computed is the one the translation is right about |
| `Translation.VectorsDiffer` | chc_verifier/include/datapoint.h:86-131 | different points of a relation have different vectors |
| `LearnerInterface.KeysAgree` | chc_verifier/include/learner_interface.h:191-217 | looking a point up before or after its derived values have been appended finds that point and no other |
| `LearnerInterface.Interface.GetUniqueDatapoint` | chc_verifier/include/learner_interface.h:191-217 | returns the data point of the given point, creating it, unlabelled, only if there is none yet |
| `LearnerInterface.Interface.AddCounterexample` | chc_verifier/include/learner_interface.h:230-309 | afterwards the sample has the same meaning as all counterexamples added so far; it is refused if and only if it is a single point that has the opposite label, and then no interpretation fulfils them all, or if it is malformed |
| `LearnerInterface.Interface.AddClassified` | chc_verifier/include/learner_interface.h:243-274 | the two cases of a single point: it is labelled, and refused if and only if it has the opposite label |
| `LearnerInterface.Interface.AddHorn` | chc_verifier/include/learner_interface.h:277-300 | the case of an implication: one constraint over the numbers of its points is added, and no label |
| `LearnerInterface.Interface.ModelMeans` | hice-dt/include/api.h:83-100 | the models of the sample are the interpretations that fulfil the counterexamples |
| `LearnerInterface.Interface.DistinctPoints` | chc_verifier/include/learner_interface.h:191-217 | data points in the sample are pairwise distinct |
| `LearnerInterface.Interface.ReadingMeans` | chc_verifier/include/learner_interface.h:318-331 | a point of the sample is true in the conjectures if and only if the tree makes it true and every Boolean attribute tested on the way is true |
| `LearnerInterface.Interface.TruthValues` | chc_verifier/include/datapoint.h:109-128 | Boolean attributes never exceed 1, so no learnt tree cuts them higher |
| `LearnerInterface.Interface.TreeFulfils` | chc_verifier/include/learner_interface.h:318-331 | the tree's reading fulfils all counterexamples, and the conjectures are never true beyond it |
| `LearnerInterface.Interface.GetConjectures` | chc_verifier/include/learner_interface.h:318-331 | read off a tree that the driver may return for the sample, with prephase and bounds as asked; there are conjectures if and only if some interpretation fulfils all counterexamples added; over integer arguments they fulfil every one of them, and in any case those without a conclusion |
| `LearnerInterface.Start` | chc_verifier/include/learner_interface.h:92-189 | sets up an empty sample; refused exactly if a relation has no arguments |
| `Substitute.SubstituteByWorklist` | chc_verifier/include/z3_helper.h:56-161 | the worklist ends although it may hold an expression several times, and the cached result is recursive simultaneous substitution |
| `Substitute.SubstMeaning` | chc_verifier/include/z3_helper.h:56-161 | evaluating the result is evaluating the original with the predicate interpreted as its conjecture |
| `Substitute.SubstituteAll` | chc_verifier/include/chc_verifier.h:190-204 | substituting the predicates of a CHC one after another |
| `Substitute.SubstAllMeaning` | chc_verifier/include/chc_verifier.h:190-204 | gives all of them the meaning of their conjectures at once |
| `Substitute.SubstAllAtOnce` | chc_verifier/include/chc_verifier.h:190-204 | and results in the expression that substituting all at once does |
| `Substitute.OrderDoesNotMatter` | chc_verifier/include/chc_verifier.h:190-204 | so the order does not matter to the resulting expression |
| `Checker.FormulaMeaning` | chc_verifier/include/dt_to_z3_exp.h:143-290 | a conjecture as an expression over its variables has the truth value of its formula |
| `Checker.SubstitutedMeans` | chc_verifier/include/chc_verifier.h:183-204 | the CHC after the substitution has the value of the CHC with the relations read as the conjectures say |
| `Checker.ReadPoints` | chc_verifier/include/chc_verifier.h:158-171 | the points of the applications under the assignment found |
| `Checker.CheckChc` | chc_verifier/include/chc_verifier.h:174-272 | with a sound solver for expressions without relations: no counterexample means that the conjectures fulfil all ground instances of the CHC, and a counterexample is an instance they do not fulfil |
| `Checker.InstancesMean` | chc_verifier/include/chc.h:27-44 | fulfilling all ground instances of a CHC is making it true under every assignment |
| `Checker.ClauseWellFormed` | chc_verifier/include/chc.h:27-44 | every clause made of a constraint, premises and at most one conclusion is a CHC in this sense |
| `Cegis.Teacher.CheckUnsatisfied` | chc_verifier/src/chc_verifier.cpp:152-196 | exactly the CHCs with a changed conjecture are re-checked; those that become valid are taken out, and each of the others gives one counterexample; what stays was not re-checked or is violated by a counterexample found |
| `Cegis.Teacher.CheckSatisfied` | chc_verifier/src/chc_verifier.cpp:199-242 | exactly the CHCs with a changed conjecture are re-checked; those that become violated move over, with one counterexample each; what stays is valid or has no changed conjecture |
| `Cegis.Teacher.RoundKeeps` | chc_verifier/src/chc_verifier.cpp:108-257 | the two lists partition the CHCs, every satisfied one is valid under the latest conjectures although unchanged ones are skipped, and every unsatisfied one with a predicate is violated by a counterexample in the sample |
| `Cegis.Teacher.UnsatisfiedSeesChange` | chc_verifier/src/chc_verifier.cpp:116-135 | with conjectures that fulfil the sample, every unsatisfied CHC that mentions a predicate sees a changed conjecture: the assertion that is commented out |
| `Cegis.Teacher.AddCounterexamples` | chc_verifier/src/chc_verifier.cpp:249-253 | a counterexample that contradicts the others means that no interpretation makes all CHCs valid |
| `Cegis.Teacher.CheckAll` | chc_verifier/src/chc_verifier.cpp:116-246 | both passes keep the invariant for the new conjectures and the enlarged sample, and check exactly the CHCs with a changed conjecture |
| `Cegis.Teacher.SampleGrows` | chc_verifier/src/chc_verifier.cpp:249-253 | with conjectures that fulfil the sample, a CHC that is left unsatisfied and mentions a predicate adds a counterexample the sample did not have |
| `Cegis.Teacher.Round` | chc_verifier/src/chc_verifier.cpp:108-257 | invokes the learner once and keeps the invariant, or shows that the CHCs have no solution; the conjectures are ones the learner may give for the sample; over integers no unsatisfied CHC with a predicate is skipped, and if one is left the sample has grown by something new |
| `Cegis.Teacher.SolutionMeans` | chc_verifier/src/chc_verifier.cpp:258-259 | an interpretation solves the CHCs if and only if it fulfils all their ground instances |
| `Cegis.Teacher.Learn` | chc_verifier/src/chc_verifier.cpp:105-259 | conjectures returned make every CHC true under every assignment, so the assertion after the loop holds; a failure of the learner means that no interpretation does; a CHC without predicates is never checked, so there is no success if there is one; when the rounds are used up, that many have been made, some CHC is left unsatisfied, and over integers, if every CHC mentions a predicate, every round has added a counterexample |
| `Cegis.Teacher.ContradictionUnsolvable` | chc_verifier/src/chc_verifier.cpp:249-253 | instances of CHCs that no interpretation fulfils refute the CHCs |

## Left out

- HornSolver.Solver.Solve: demands that the given sets are disjoint and compatible with the labels, as all callers guarantee; what the code does otherwise is not stated.
- HornSolver.Solver.PropagateFalse: the branches for a failing `set_classification(false)` are proved dead, so the method has no failing result.
- JobManager.Manager.FindBestSplit: the floating-point scores (entropy, gain ratio, intrinsic value, penalty, threshold cost) are arbitrary integers, and the preference for conjunctive splits and the separate bookkeeping for zero intrinsic value are not modelled; they only choose among the same legal candidates.
- JobManager.Manager.BestCut: scores are assumed to exceed −1000000, the value the source starts its comparisons with; a ratio at or below it, after an attribute without intrinsic value, would leave attribute and cut unset.
- JobManager.Manager.GetNextJob: breadth-first, depth-first, random and entropy-based node selection are one arbitrary pick.
- HornAssignments.EstimateFractions: fractions are real numbers; rounding is not modelled.
- Sorting.SortSlice: the algorithm is a selection sort; the library's sort may order points with equal keys differently, which no caller depends on.
- Learner.Learn: tree nodes are values with numbered holes instead of pointers, so memory management, cloning and aliasing of nodes are not captured.
- Learner.IsConsistent: on trees that route points to missing children only positive answers are specified, since the visitor throws or follows a null pointer there.
- Conjunctions.GeneratePredicates: the first interval is not empty; for an empty one the code's unsigned subtraction wraps around.
- Conjunctions.HorndiniPrephase: constraints are rendered once for the original points instead of a second time for the derived ones, which are in the same order.
- Driver.LearnDecisionTree: exceptions become outcomes; the function's outermost handler, which prints the message and returns nothing, is not modelled.  For a sample with no categorical attribute but some integer attribute the code reads past the end of a vector, so this input is excluded.
- Translation.GetConjectures: null children of integer nodes do not occur in learnt trees and are excluded; a missing child of the root reuses the formula before it, as in the code, and nothing is claimed about what this means for its relation.
- LearnerInterface.Interface.GetUniqueDatapoint: points are compared as sequences of values; the hash, and what the element-by-element comparison does on sequences of different lengths in one bucket, are not modelled.
- LearnerInterface.Interface.GetConjectures: over Boolean arguments, counterexamples with a conclusion may stay unfulfilled, because of the translation described above.
- Encoding.TeacherPoint.GetIntData: values that do not fit a machine integer, and sorts other than integers and Booleans, are left out.
- Substitute.SubstituteByWorklist: expressions are untyped applications; the library's own replacement of variables is a recursive function.
- Checker.CheckChc: the solver is a parameter that finds an assignment making an expression without relations false exactly if there is one, may answer differently each time, and never answers "unknown"; that a CHC is false exactly if its constraint and premises hold and its conclusion does not is a condition on the parser's output.
- Cegis.Teacher.Learn: runs for a given number of rounds, because the loop need not end.
- `learn1`, `naive_check` and other drivers of the teacher: they would only repeat simpler parts of the loop that is modelled.
- `debug_job_manager.h`, the base class `simple_job_manager::next_job`, `horndt.cpp` and the duplicated sources under `chc_verifier/src`: variants of what is modelled.
- The initial satisfied flag of a constraint handed to the solver: all callers pass constraints with the flag unset.
- Files, options, printing, logs, JSON output, clocks, random seeds and invocation counters: no effect on the answer.
- Machine integers: all integers are unbounded.
