/**
 The tree learner as a transition system: which trees it may return, whatever slice it picks and however
 it scores splits.  A slice is the set of the points that wait for one node.
 */
module Runs {
  import opened Horn
  import opened Tree
  import opened Slices
  import opened Jobs
  import opened JobManager
  import opened TreeShape

  datatype LearnResult = Learned(tree: Node) | LearnSplitNotPossible | LearnNotOneCategorical

  /** The tree so far, the first free address, and the labels so far. */
  datatype Progress = Progress(root: Node, next: nat, labels: seq<Label>)

  /** The points that wait for the node at an address. */
  ghost function Waiting(t: Task, root: Node, address: nat): set<nat>
    requires ValidTask(t) && ValidNode(root, t.meta)
  {
    Reaching(root, t, AllPoints(t), address)
  }

  // ---------- labels ----------

  /** All labels that the given ones force, and no others. */
  ghost predicate Consequences(after: seq<Label>, labels: seq<Label>, hs: seq<Constraint>) {
    |after| == |labels| && Closed(after, hs) && forall S :: Model(S, after, hs) <==> Model(S, labels, hs)
  }

  /** There is only one way to label the consequences. */
  lemma ConsequencesUnique(a: seq<Label>, b: seq<Label>, labels: seq<Label>, hs: seq<Constraint>)
    requires Consequences(a, labels, hs) && Consequences(b, labels, hs)
    ensures a == b
  {
    forall p | 0 <= p < |labels| ensures a[p] == b[p] {
      ClosedLabelsAreForced(a, hs, p);
      ClosedLabelsAreForced(b, hs, p);
      var S :| Model(S, a, hs);
      assert p in S || p !in S;
      assert a[p].Unclassified? || a[p] == Classified(true) || a[p] == Classified(false);
      assert b[p].Unclassified? || b[p] == Classified(true) || b[p] == Classified(false);
    }
  }

  // ---------- steps ----------

  /** A cut at the value of one of the points, within the bound, that leaves points on both sides. */
  ghost predicate IsCut(t: Task, points: set<nat>, threshold: Option<nat>, a: nat, cut: int) {
    && a < t.meta.intAttributes && InRange(threshold, cut)
    && (exists p :: p in points && IntOf(t.data, a, p) == cut) && (exists q :: q in points && IntOf(t.data, a, q) > cut)
  }

  /** The first step splits on the one categorical attribute. */
  ghost predicate FirstStep(t: Task, before: Progress, after: Progress, address: nat) {
    && |t.meta.numberOfCategories| == 1
    && after == Progress(Fill(before.root, address, CategoricalHoles(0, before.next, t.meta.numberOfCategories[0])),
                         before.next + t.meta.numberOfCategories[0], before.labels)
  }

  /** Points that can become a leaf do, and a positive one if that is possible. */
  ghost predicate LeafStep(t: Task, before: Progress, after: Progress, address: nat)
    requires ValidTask(t) && ValidNode(before.root, t.meta)
  {
    var points := Waiting(t, before.root, address);
    var value := CanBecome(before.labels, t.hs, points, true);
    && CanBecomeLeaf(before.labels, t.hs, points)
    && after.root == Fill(before.root, address, Leaf(value)) && after.next == before.next
    && Consequences(after.labels, LabelledAlike(before.labels, points, value), t.hs)
  }

  /** Other points are split at some cut. */
  ghost predicate CutStep(t: Task, threshold: Option<nat>, before: Progress, after: Progress, address: nat)
    requires ValidTask(t) && ValidNode(before.root, t.meta)
  {
    var points := Waiting(t, before.root, address);
    && !CanBecomeLeaf(before.labels, t.hs, points)
    && exists a: nat, cut :: IsCut(t, points, threshold, a, cut) && after == AfterCut(before, address, a, cut)
  }

  function AfterCut(before: Progress, address: nat, a: nat, cut: int): Progress {
    Progress(Fill(before.root, address, IntNode(a, cut, Hole(before.next), Hole(before.next + 1))), before.next + 2,
      before.labels)
  }

  ghost predicate StepAt(t: Task, threshold: Option<nat>, first: bool, before: Progress, after: Progress, address: nat)
    requires ValidTask(t)
  {
    && ValidNode(before.root, t.meta) && Waiting(t, before.root, address) != {}
    && if first then FirstStep(t, before, after, address)
       else LeafStep(t, before, after, address) || CutStep(t, threshold, before, after, address)
  }

  ghost predicate Step(t: Task, threshold: Option<nat>, first: bool, before: Progress, after: Progress)
    requires ValidTask(t)
  {
    exists address :: StepAt(t, threshold, first, before, after, address)
  }

  // ---------- runs ----------

  ghost predicate IsRun(t: Task, threshold: Option<nat>, labels: seq<Label>, trace: seq<Progress>)
    requires ValidTask(t)
  {
    && trace != [] && trace[0] == Progress(Hole(0), 1, labels)
    && forall i :: 0 <= i < |trace| - 1 ==> Step(t, threshold, i == 0, trace[i], trace[i + 1])
  }

  /** The points waiting at the address can neither become a leaf nor be split. */
  ghost predicate StuckAt(t: Task, threshold: Option<nat>, p: Progress, address: nat)
    requires ValidTask(t) && ValidNode(p.root, t.meta)
  {
    var points := Waiting(t, p.root, address);
    points != {} && !CanBecomeLeaf(p.labels, t.hs, points) && forall a: nat, cut :: !IsCut(t, points, threshold, a, cut)
  }

  /** How a run ends. */
  ghost predicate Ends(t: Task, threshold: Option<nat>, p: Progress, started: bool, r: LearnResult)
    requires ValidTask(t)
  {
    ValidNode(p.root, t.meta) &&
    match r
    case Learned(tree) => started && tree == p.root && forall address: nat :: Waiting(t, p.root, address) == {}
    case LearnSplitNotPossible => started && exists address :: StuckAt(t, threshold, p, address)
    case LearnNotOneCategorical => !started && |t.meta.numberOfCategories| != 1
  }

  /** The result of some run; without data points, the tree is a positive leaf. */
  ghost predicate RunResult(t: Task, threshold: Option<nat>, labels: seq<Label>, r: LearnResult)
    requires ValidTask(t)
  {
    if t.data == [] then r == Learned(Leaf(true))
    else exists trace :: IsRun(t, threshold, labels, trace) && Ends(t, threshold, trace[|trace| - 1], |trace| > 1, r)
  }

  lemma ExtendRun(t: Task, threshold: Option<nat>, labels: seq<Label>, trace: seq<Progress>, after: Progress)
    requires ValidTask(t) && IsRun(t, threshold, labels, trace)
    requires Step(t, threshold, |trace| == 1, trace[|trace| - 1], after)
    ensures IsRun(t, threshold, labels, trace + [after])
  {
    hide Step;
    var longer := trace + [after];
    forall i | 0 <= i < |longer| - 1 ensures Step(t, threshold, i == 0, longer[i], longer[i + 1]) {
      if i < |trace| - 1 {
        assert longer[i] == trace[i] && longer[i + 1] == trace[i + 1];
      } else {
        assert longer[i] == trace[|trace| - 1] && longer[i + 1] == after;
      }
    }
  }

  // ---------- slices of the learner ----------

  /** The points of a slice are those that wait at its address. */
  lemma MembersWait(t: Task, order: seq<nat>, slices: seq<Slice>, root: Node, next: nat, labels: seq<Label>, sl: Slice)
    requires LearnInv(t, order, slices, root, next, labels) && sl in slices
    ensures InBounds(sl, |order|) && Members(order, sl) == Waiting(t, root, sl.address) != {}
  {
    var k :| 0 <= k < |slices| && slices[k] == sl;
    assert InBounds(slices[k], |order|);
    assert Contains(order, sl, order[sl.left]);
    forall p | p in Members(order, sl) ensures p in Waiting(t, root, sl.address) {
      assert Contains(order, sl, p);
    }
    forall p | p in Waiting(t, root, sl.address) ensures p in Members(order, sl) {
      assert Contains(order, sl, p);
    }
  }

  lemma LegalIsCut(t: Task, order: seq<nat>, sl: Slice, threshold: Option<nat>, a: nat, cut: int)
    requires InBounds(sl, |order|)
    ensures LegalCut(t, order, sl, threshold, a, cut) <==> IsCut(t, Members(order, sl), threshold, a, cut)
  {
    var members := Members(order, sl);
    if LegalCut(t, order, sl, threshold, a, cut) {
      var p: nat :| Contains(order, sl, p) && IntOf(t.data, a, p) == cut;
      var q: nat :| Contains(order, sl, q) && IntOf(t.data, a, q) > cut;
      assert p in members && q in members;
    }
    if IsCut(t, members, threshold, a, cut) {
      var p :| p in members && IntOf(t.data, a, p) == cut;
      var q :| q in members && IntOf(t.data, a, q) > cut;
      assert Contains(order, sl, p) && Contains(order, sl, q);
    }
  }

  /** The labels after a job. */
  ghost function LabelsAfter(job: Job, labels: seq<Label>): seq<Label> {
    if job.LeafCreation? then Apply(labels, job.pos, job.neg) else labels
  }

  /** Executing a leaf job is a step. */
  lemma LeafJobIsStep(t: Task, order: seq<nat>, slices: seq<Slice>, root: Node, next: nat, labels: seq<Label>,
                      sl: Slice,
                      threshold: Option<nat>, value: bool, pos: set<nat>, neg: set<nat>)
    requires LearnInv(t, order, slices, root, next, labels) && sl in slices && InBounds(sl, |order|)
    requires LeafLabels(labels, t.hs, Members(order, sl), value, pos, neg)
    requires CanBecomeLeaf(labels, t.hs, Members(order, sl))
    requires value <==> CanBecome(labels, t.hs, Members(order, sl), true)
    ensures Step(t, threshold, false, Progress(root, next, labels),
                 Progress(Fill(root, sl.address, Leaf(value)), next, Apply(labels, pos, neg)))
  {
    hide LearnInv, CanBecome, CanBecomeLeaf, Members, Waiting, Model, Closed, Fill;
    MembersWait(t, order, slices, root, next, labels, sl);
    LearnValid(t, order, slices, root, next, labels);
    var before, after :=
        Progress(root, next, labels), Progress(Fill(root, sl.address, Leaf(value)), next, Apply(labels, pos, neg));
    assert LeafStep(t, before, after, sl.address);
    assert StepAt(t, threshold, false, before, after, sl.address);
  }

  lemma LearnValid(t: Task, order: seq<nat>, slices: seq<Slice>, root: Node, next: nat, labels: seq<Label>)
    requires LearnInv(t, order, slices, root, next, labels)
    ensures ValidTask(t) && ValidNode(root, t.meta)
  {
  }

  /** Executing a split at a legal cut is a step. */
  lemma CutJobIsStep(t: Task, order: seq<nat>, slices: seq<Slice>, root: Node, next: nat, labels: seq<Label>, sl: Slice,
                     threshold: Option<nat>, a: nat, cut: int)
    requires LearnInv(t, order, slices, root, next, labels) && sl in slices && InBounds(sl, |order|)
    requires LegalCut(t, order, sl, threshold, a, cut) && !CanBecomeLeaf(labels, t.hs, Members(order, sl))
    ensures Step(t, threshold, false, Progress(root, next, labels),
                 Progress(Fill(root, sl.address, IntNode(a, cut, Hole(next), Hole(next + 1))), next + 2, labels))
  {
    hide LearnInv, CanBecomeLeaf, Members, Waiting, Fill, LegalCut, IsCut;
    MembersWait(t, order, slices, root, next, labels, sl);
    LearnValid(t, order, slices, root, next, labels);
    LegalIsCut(t, order, sl, threshold, a, cut);
    var before := Progress(root, next, labels);
    assert CutStep(t, threshold, before, AfterCut(before, sl.address, a, cut), sl.address);
    assert StepAt(t, threshold, false, before, AfterCut(before, sl.address, a, cut), sl.address);
  }

  /** The first job is the first step. */
  lemma FirstJobIsStep(t: Task, order: seq<nat>, slices: seq<Slice>, root: Node, next: nat, labels: seq<Label>,
                       sl: Slice,
                       threshold: Option<nat>)
    requires LearnInv(t, order, slices, root, next, labels) && sl in slices && |t.meta.numberOfCategories| == 1
    ensures Step(t, threshold, true, Progress(root, next, labels),
                 Progress(Fill(root, sl.address, CategoricalHoles(0, next, t.meta.numberOfCategories[0])),
                          next + t.meta.numberOfCategories[0], labels))
  {
    hide LearnInv, Members, Waiting, Fill;
    MembersWait(t, order, slices, root, next, labels, sl);
    LearnValid(t, order, slices, root, next, labels);
    var after := Progress(Fill(root, sl.address, CategoricalHoles(0, next, t.meta.numberOfCategories[0])),
                          next + t.meta.numberOfCategories[0], labels);
    assert StepAt(t, threshold, true, Progress(root, next, labels), after, sl.address);
  }

  /** A stuck slice ends the run. */
  lemma StuckEnds(t: Task, order: seq<nat>, slices: seq<Slice>, root: Node, next: nat, labels: seq<Label>, sl: Slice,
                  threshold: Option<nat>)
    requires LearnInv(t, order, slices, root, next, labels) && sl in slices && Stuck(t, order, sl, threshold, labels)
    ensures Ends(t, threshold, Progress(root, next, labels), true, LearnSplitNotPossible)
  {
    MembersWait(t, order, slices, root, next, labels, sl);
    var points := Waiting(t, root, sl.address);
    forall a: nat, cut ensures !IsCut(t, points, threshold, a, cut) {
      LegalIsCut(t, order, sl, threshold, a, cut);
      assert a < t.meta.intAttributes ==> NoLegalCut(t, order, sl, threshold, a);
    }
    assert StuckAt(t, threshold, Progress(root, next, labels), sl.address);
  }

  /** Without slices, no points wait. */
  lemma FinishedEnds(t: Task, order: seq<nat>, root: Node, next: nat, labels: seq<Label>, threshold: Option<nat>)
    requires LearnInv(t, order, [], root, next, labels)
    ensures Ends(t, threshold, Progress(root, next, labels), true, Learned(root))
  {
    assert forall p :: 0 <= p < |t.data| ==> !Reach(root, t.data[p], t.meta).Hole?;
    forall address: nat ensures Waiting(t, root, address) == {} {}
  }
}
