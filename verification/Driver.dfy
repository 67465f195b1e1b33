/**
 The driver of the learner: the optional Horndini prephase, and the loop over increasing bounds.
 */
module Driver {
  import opened Horn
  import opened HornSolver
  import opened Tree
  import opened Slices
  import opened Jobs
  import opened JobManager
  import opened Learner
  import opened Conjunctions
  import opened Bounds
  import opened TreeShape
  import opened Unsplittable
  import opened Runs

  const MAX_BOUND := 20

  /** The bound on cuts; above its maximum it is not used any more. */
  class Bound {
    var bound: nat
    const use: bool

    constructor (bound: nat, use: bool)
      ensures this.bound == bound && this.use == use
    {
      this.bound, this.use := bound, use;
    }

    predicate UseBound()
      reads this
    {
      use && bound <= MAX_BOUND
    }

    method IncreaseBound()
      modifies this
      ensures bound == old(bound) * 2
    {
      bound := bound * 2;
    }
  }

  datatype Outcome =
    | LearntTree(tree: Node)
    | SampleContradictory
    | NoSplitPossible
    | CategoriesUnsupported
    | NoAttributes
    | IntervalMismatch

  /** A valid tree that is consistent with the sample. */
  ghost predicate Solves(tree: Node, t: Task, labels: seq<Label>)
    requires ValidTask(t)
  {
    ValidNode(tree, t.meta) && Consistent(tree, t.data, t.meta, labels, t.hs)
  }

  /** The outcome of an attempt under a bound, or without one. */
  ghost predicate AttemptOutcome(t: Task, labels: seq<Label>, bound: Option<nat>, r: Outcome)
    requires ValidTask(t)
  {
    match r
    case LearntTree(tree) => Solves(tree, t, labels) && (bound.Some? ==> CutsWithin(tree, bound.value))
    case SampleContradictory =>
      if bound.None? then !Satisfiable(labels, t.hs)
      else forall tree :: ValidNode(tree, t.meta) && CutsWithin(tree, bound.value) ==>
          !Consistent(tree, t.data, t.meta, labels, t.hs)
    case NoSplitPossible =>
      if bound.None? then FailureExplained(t, None, labels) else StraddledApart(t, labels, bound.value)
    case CategoriesUnsupported => |t.meta.numberOfCategories| != 1
    case _ => false
  }

  /** The task with constraints that a bound adds. */
  ghost predicate Enlarges(u: Task, t: Task, bound: Option<nat>)
    requires ValidTask(t)
  {
    ValidTask(u) &&
    if bound.None? then u == t
    else exists extra :: u == t.(hs := t.hs + extra) && BoundConstraints(extra, t.data, t.meta, bound.value)
  }

  /** The task with the constraints that the bound adds. */
  method BoundedTask(t: Task, bound: Option<nat>) returns (u: Task)
    requires ValidTask(t)
    ensures Enlarges(u, t, bound)
  {
    u := t;
    if bound.Some? {
      var extra := GetIndistinguishableDatapoints(t.data, t.meta, bound.value);
      u := t.(hs := t.hs + extra);
      assert BoundConstraints(extra, t.data, t.meta, bound.value);
    }
  }

  /** What holds for the enlarged task holds for the original one. */
  lemma BoundedOutcome(t: Task, u: Task, labels: seq<Label>, bound: Option<nat>)
    requires ValidTask(t) && Enlarges(u, t, bound)
    ensures u.data == t.data && u.meta == t.meta
    ensures forall tree :: Solves(tree, u, labels) ==> Solves(tree, t, labels)
    ensures !Satisfiable(labels, u.hs) ==> AttemptOutcome(t, labels, bound, SampleContradictory)
    ensures FailureExplained(u, bound, labels) ==> AttemptOutcome(t, labels, bound, NoSplitPossible)
  {
    if bound.Some? {
      var extra :| u == t.(hs := t.hs + extra) && BoundConstraints(extra, t.data, t.meta, bound.value);
      if FailureExplained(u, bound, labels) {
        BoundedFailure(t, u, labels, bound.value, extra);
      }
      forall tree | Solves(tree, u, labels) ensures Solves(tree, t, labels) {
        ModelOfMore(TruePoints(tree, t.data, t.meta), labels, t.hs, extra);
      }
      if !Satisfiable(labels, u.hs) {
        forall tree | ValidNode(tree, t.meta) && CutsWithin(tree, bound.value)
          ensures !Consistent(tree, t.data, t.meta, labels, t.hs)
        {
          BoundTooSmall(tree, t.data, t.meta, labels, t.hs, extra, bound.value);
        }
      }
    }
  }

  /** A tree that is learnt cuts at values of data points routed to the cut only. */
  ghost predicate ShapedOutcome(t: Task, r: Outcome)
    requires ValidTask(t)
  {
    r.LearntTree? ==> r.tree.Leaf? || FinishedShape(r.tree, t)
  }

  function OutcomeOf(r: LearnResult): Outcome {
    match r
    case Learned(tree) => LearntTree(tree)
    case LearnSplitNotPossible => NoSplitPossible
    case LearnNotOneCategorical => CategoriesUnsupported
  }

  /**
   The result of some attempt under the bound: if the enlarged sample has a model, that of a run of the learner
   that starts from the consequences of the labels.
   */
  ghost predicate AttemptResult(t: Task, labels: seq<Label>, bound: Option<nat>, r: Outcome)
    requires ValidTask(t)
  {
    exists u, after :: Enlarges(u, t, bound) && ResultFrom(u, labels, bound, after, r)
  }

  ghost predicate ResultFrom(u: Task, labels: seq<Label>, bound: Option<nat>, after: seq<Label>, r: Outcome)
    requires ValidTask(u)
  {
    if !Satisfiable(labels, u.hs) then r == SampleContradictory
    else Consequences(after, labels, u.hs) && exists l :: RunResult(u, bound, after, l) && r == OutcomeOf(l)
  }

  /** All that is promised of an attempt. */
  ghost predicate Attempted(t: Task, labels: seq<Label>, bound: Option<nat>, r: Outcome)
    requires ValidTask(t)
  {
    AttemptOutcome(t, labels, bound, r) && ShapedOutcome(t, r) && AttemptResult(t, labels, bound, r)
  }

  /** One attempt: it works on its own copy of the labels and of the list of data points. */
  method Attempt(t: Task, labels: seq<Label>, bound: Option<nat>) returns (r: Outcome)
    requires ValidTask(t) && |labels| == |t.data|
    ensures Attempted(t, labels, bound, r)
  {
    var points := new Sample(labels);
    var order := new nat[|t.data|](i => i);
    var u := BoundedTask(t, bound);
    BoundedOutcome(t, u, labels, bound);
    var solver := new Solver();
    assert Apply(labels, {}, {}) == labels;
    var ok, pos, neg := solver.Solve(points, u.hs, {}, {});
    if !ok {
      r := SampleContradictory;
      assert ResultFrom(u, labels, bound, labels, r);
    } else {
      ghost var after := Apply(labels, pos, neg);
      ApplyGrows(labels, pos, neg);
      LabelPoints(points, pos, neg);
      var m := new Manager(u, order, points, solver, bound);
      forall p | 0 <= p < |t.data| ensures p in order[..] { assert order[..][p] == p; }
      var result := Learn(m);
      r := OutcomeOf(result);
      LearntOutcome(u, labels, bound, after, result);
    }
  }

  /** What the learner finds from the consequences of the labels on is the outcome for the labels. */
  lemma LearntOutcome(u: Task, labels: seq<Label>, bound: Option<nat>, after: seq<Label>, l: LearnResult)
    requires ValidTask(u) && Consequences(after, labels, u.hs) && Grows(labels, after) && RunResult(u, bound, after, l)
    requires l.Learned? ==> ValidNode(l.tree, u.meta) && Consistent(l.tree, u.data, u.meta, after, u.hs)
    requires l.LearnSplitNotPossible? ==> FailureExplained(u, bound, after)
    ensures ResultFrom(u, labels, bound, after, OutcomeOf(l))
    ensures l.Learned? ==> Solves(l.tree, u, labels)
    ensures l.LearnSplitNotPossible? ==> FailureExplained(u, bound, labels)
  {
    hide RunResult, FailureExplained, Consistent;
    var S :| Model(S, after, u.hs);
    assert Model(S, labels, u.hs);
    if l.Learned? { StillConsistent(l.tree, u, labels, after); }
    if l.LearnSplitNotPossible? { FailureOfFewer(u, bound, labels, after); }
  }

  /**
   The result of the driver: the tree of the strongest conjunctions, if the prephase is done and some
   conjunctions are consistent, and otherwise what the loop over bounds finds.
   */
  ghost predicate DriverResult(t: Task, labels: seq<Label>, intervals: seq<Interval>, prephase: bool, startBound: nat,
                               useBounds: bool, r: Outcome)
    requires ValidTask(t) && startBound >= 1
  {
    if prephase && SomeChoice(t.data, labels, t.hs, intervals, 1) then
      r.LearntTree? && StrongestTree(r.tree, t.meta, t.data, labels, t.hs, intervals, 1)
    else LoopResult(t, labels, startBound, useBounds, r)
  }

  /**
   Learns a tree for a sample.  A tree that is returned is consistent with the sample as given, however
   it was found.  Bounded attempts that fail are repeated with twice the bound, from the unmodified
   labels, and finally without a bound; on pairwise distinct data points the last one only fails if
   the sample is contradictory.  If every data point has zeros outside the attributes of its category,
   the tree has below its root one tree of integer nodes per category, over the attributes of that category.
   No attribute is cut above its largest value, or above 1.
   */
  method LearnDecisionTree(t: Task, labels: seq<Label>, intervals: seq<Interval>, prephase: bool, startBound: nat,
                           useBounds: bool)
    returns (r: Outcome)
    requires ValidTask(t) && |labels| == |t.data| && startBound >= 1
    requires t.meta.intAttributes > 0 ==> |t.meta.numberOfCategories| > 0
    requires prephase ==> IntervalsInRange(intervals, t.meta.intAttributes)
    ensures r.LearntTree? ==> Solves(r.tree, t, labels)
    ensures r.SampleContradictory? ==> !Satisfiable(labels, t.hs)
    ensures r.LearntTree? && BlockData(t.data, intervals) ==> InBlocks(r.tree, intervals)
    ensures r.LearntTree? ==>
              forall a, limit :: limit >= 1 && (forall p :: 0 <= p < |t.data| ==> IntOf(t.data, a, p) <= limit) ==>
                  CutsAtMost(r.tree, a, limit)
    ensures r.NoSplitPossible? ==> FailureExplained(t, None, labels)
    ensures r.CategoriesUnsupported? ==> |t.meta.numberOfCategories| != 1
    ensures r.NoAttributes? <==> |t.meta.numberOfCategories| == 0
    ensures r.IntervalMismatch? <==> |t.meta.numberOfCategories| > 0 && t.meta.numberOfCategories[0] != |intervals|
    ensures DistinctData(t.data) && |t.meta.numberOfCategories| == 1 && t.meta.numberOfCategories[0] == |intervals| ==>
              (r.LearntTree? <==> Satisfiable(labels, t.hs))
    ensures |t.meta.numberOfCategories| > 0 && t.meta.numberOfCategories[0] == |intervals| ==>
              DriverResult(t, labels, intervals, prephase, startBound, useBounds, r)
    ensures useBounds && |t.meta.numberOfCategories| == 1 && t.meta.numberOfCategories[0] == |intervals| &&
            !(prephase && SomeChoice(t.data, labels, t.hs, intervals, 1)) ==>
              forall k :: Doubled(startBound, k) <= MAX_BOUND && BoundSuffices(t, labels, Doubled(startBound, k)) ==>
                r.LearntTree? && CutsWithin(r.tree, Doubled(startBound, k))
  {
    if t.meta.intAttributes + |t.meta.numberOfCategories| == 0 {
      return NoAttributes;
    }
    if t.meta.numberOfCategories[0] != |intervals| {
      return IntervalMismatch;
    }
    if prephase {
      var tree := HorndiniPrephase(t.data, t.meta, labels, t.hs, intervals, 1);
      if tree.Some? {
        var consistent := IsConsistent(tree.value, t, labels);
        if consistent == Some(true) {
          SolvedSatisfiable(tree.value, t, labels);
          forall a, limit | limit >= 1 ensures CutsAtMost(tree.value, a, limit) {
            CutsAtMostMore(tree.value, a, 1, limit);
          }
          return LearntTree(tree.value);
        }
      }
    }
    r := LoopOverBounds(t, labels, startBound, useBounds);
    LoopOutcome(t, labels, startBound, useBounds, r);
    if r.NoSplitPossible? {
      UnboundedFailure(t, labels);
    }
    if useBounds {
      forall k | Doubled(startBound, k) <= MAX_BOUND && BoundSuffices(t, labels, Doubled(startBound, k))
        ensures r.LearntTree? && CutsWithin(r.tree, Doubled(startBound, k))
      {
        BoundsTakeEffect(t, labels, startBound, r, k);
      }
    }
    if r.LearntTree? {
      if !r.tree.Leaf? {
        if BlockData(t.data, intervals) {
          FinishedInBlocks(r.tree, t, intervals);
        }
        forall a, limit | forall p :: 0 <= p < |t.data| ==> IntOf(t.data, a, p) <= limit
          ensures CutsAtMost(r.tree, a, limit)
        {
          JustifiedCuts(r.tree, t.data, AllPoints(t), a, limit);
        }
      }
      SolvedSatisfiable(r.tree, t, labels);
    }
  }

  lemma SolvedSatisfiable(tree: Node, t: Task, labels: seq<Label>)
    requires ValidTask(t) && Solves(tree, t, labels)
    ensures Satisfiable(labels, t.hs)
  {
    assert Model(TruePoints(tree, t.data, t.meta), labels, t.hs);
  }

  // ---------- the loop over bounds ----------

  predicate Ended(r: Outcome) {
    r.LearntTree? || r.CategoriesUnsupported?
  }

  /**
   Attempts under the bound, twice the bound, and so on as long as a bound is used, and then without one; the
   first that ends counts.
   */
  ghost predicate LoopResult(t: Task, labels: seq<Label>, bound: nat, useBounds: bool, r: Outcome)
    requires ValidTask(t) && bound >= 1
    decreases MAX_BOUND - bound
  {
    if useBounds && bound <= MAX_BOUND then
      exists s :: Attempted(t, labels, Some(bound), s) && if Ended(s) then r == s
        else LoopResult(t, labels, 2 * bound, useBounds, r)
    else Attempted(t, labels, None, r)
  }

  /** The bound after `k` attempts. */
  function Doubled(bound: nat, k: nat): nat
    decreases k
  {
    if k == 0 then bound else Doubled(2 * bound, k - 1)
  }

  /** The bound is one that leaves a consistent tree, and with which every slice becomes a leaf or can be split. */
  ghost predicate BoundSuffices(t: Task, labels: seq<Label>, bound: nat)
    requires ValidTask(t)
  {
    && |t.meta.numberOfCategories| == 1 && !StraddledApart(t, labels, bound)
    && exists u :: Enlarges(u, t, Some(bound)) && Satisfiable(labels, u.hs)
  }

  /** An attempt under such a bound succeeds. */
  lemma SufficientAttempt(t: Task, labels: seq<Label>, bound: nat, r: Outcome)
    requires ValidTask(t) && BoundSuffices(t, labels, bound) && Attempted(t, labels, Some(bound), r)
    ensures r.LearntTree? && CutsWithin(r.tree, bound)
  {
    if r.SampleContradictory? {
      var u :| Enlarges(u, t, Some(bound)) && Satisfiable(labels, u.hs);
      var v, after :| Enlarges(v, t, Some(bound)) && ResultFrom(v, labels, Some(bound), after, r);
      SameModels(t, u, v, labels, bound);
    }
  }

  /** The models do not depend on how the constraints of a bound are written. */
  lemma SameModels(t: Task, u: Task, v: Task, labels: seq<Label>, bound: nat)
    requires ValidTask(t) && Enlarges(u, t, Some(bound)) && Enlarges(v, t, Some(bound))
    ensures Satisfiable(labels, u.hs) <==> Satisfiable(labels, v.hs)
  {
    var a :| u == t.(hs := t.hs + a) && BoundConstraints(a, t.data, t.meta, bound);
    var b :| v == t.(hs := t.hs + b) && BoundConstraints(b, t.data, t.meta, bound);
    forall S ensures Model(S, labels, u.hs) <==> Model(S, labels, v.hs) {
      ModelOfMore(S, labels, t.hs, a);
      ModelOfMore(S, labels, t.hs, b);
    }
  }

  lemma {:induction false} CutsWithinMore(node: Node, bound: nat, more: nat)
    requires CutsWithin(node, bound) && bound <= more
    ensures CutsWithin(node, more)
  {
    match node
    case Hole(_) =>
    case Leaf(_) =>
    case IntNode(_, _, l, r) => CutsWithinMore(l, bound, more); CutsWithinMore(r, bound, more);
    case CategoricalNode(_, children) =>
      forall i | 0 <= i < |children| ensures CutsWithin(children[i], more) { CutsWithinMore(children[i], bound, more); }
  }

  lemma {:induction false} DoubledGrows(bound: nat, k: nat)
    ensures Doubled(bound, k) >= bound
    decreases k
  {
    if k > 0 { DoubledGrows(2 * bound, k - 1); }
  }

  /**
   If bounds are used, the tree's cuts are within every bound of the sequence that suffices: the loop stops there
   at the latest.
   */
  lemma {:induction false} BoundsTakeEffect(t: Task, labels: seq<Label>, bound: nat, r: Outcome, k: nat)
    requires ValidTask(t) && bound >= 1 && LoopResult(t, labels, bound, true, r)
    requires Doubled(bound, k) <= MAX_BOUND && BoundSuffices(t, labels, Doubled(bound, k))
    ensures r.LearntTree? && CutsWithin(r.tree, Doubled(bound, k))
    decreases k
  {
    hide Attempted, BoundSuffices, CutsWithin;
    DoubledGrows(bound, k);
    var s :| Attempted(t, labels, Some(bound), s) && if Ended(s) then r == s
        else LoopResult(t, labels, 2 * bound, true, r);
    if k == 0 {
      SufficientAttempt(t, labels, bound, s);
    } else if Ended(s) {
      OneCategoryEnds(t, labels, bound, Doubled(bound, k), s);
      CutsWithinMore(s.tree, bound, Doubled(bound, k));
    } else {
      BoundsTakeEffect(t, labels, 2 * bound, r, k - 1);
    }
  }

  lemma OneCategoryEnds(t: Task, labels: seq<Label>, bound: nat, more: nat, s: Outcome)
    requires ValidTask(t) && Attempted(t, labels, Some(bound), s) && Ended(s) && BoundSuffices(t, labels, more)
    ensures s.LearntTree? && CutsWithin(s.tree, bound)
  {
  }

  /** What the loop promises of its result, whatever the bounds. */
  lemma {:induction false} LoopOutcome(t: Task, labels: seq<Label>, bound: nat, useBounds: bool, r: Outcome)
    requires ValidTask(t) && bound >= 1 && LoopResult(t, labels, bound, useBounds, r)
    ensures r.LearntTree? ==> Solves(r.tree, t, labels) && (r.tree.Leaf? || FinishedShape(r.tree, t))
    ensures r.LearntTree? || r.CategoriesUnsupported? || AttemptOutcome(t, labels, None, r)
    ensures r.CategoriesUnsupported? ==> |t.meta.numberOfCategories| != 1
    decreases MAX_BOUND - bound
  {
    if useBounds && bound <= MAX_BOUND {
      var s :| Attempted(t, labels, Some(bound), s) && if Ended(s) then r == s
          else LoopResult(t, labels, 2 * bound, useBounds, r);
      if !Ended(s) {
        LoopOutcome(t, labels, 2 * bound, useBounds, r);
      }
    }
  }

  /** The loop over increasing bounds, which ends with an attempt without one. */
  method LoopOverBounds(t: Task, labels: seq<Label>, startBound: nat, useBounds: bool) returns (r: Outcome)
    requires ValidTask(t) && |labels| == |t.data| && startBound >= 1
    ensures LoopResult(t, labels, startBound, useBounds, r)
  {
    hide Attempted;
    var bound := new Bound(startBound, useBounds);
    var terminate := false;
    r := NoSplitPossible;
    while !terminate
      invariant fresh(bound) && bound.bound >= 1 && bound.use == useBounds
      invariant terminate ==> LoopResult(t, labels, startBound, useBounds, r)
      invariant !terminate ==> forall s :: LoopResult(t, labels, bound.bound, useBounds, s) ==>
                  LoopResult(t, labels, startBound, useBounds, s)
      decreases !terminate, if bound.UseBound() then MAX_BOUND + 1 - bound.bound else 0
    {
      var bounded := bound.UseBound();
      terminate := !bounded;
      r := Attempt(t, labels, if bounded then Some(bound.bound) else None);
      if r.LearntTree? || r.CategoriesUnsupported? {
        terminate := true;
      } else if bounded {
        bound.IncreaseBound();
      }
    }
  }
}
