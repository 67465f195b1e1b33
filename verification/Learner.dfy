/**
 The learning loop: builds a decision tree that is consistent with the labels and the constraints.
 */
module Learner {
  import opened Horn
  import opened Tree
  import opened Slices
  import opened Sorting
  import opened Jobs
  import opened JobManager
  import opened Unsplittable
  import opened TreeShape
  import opened Runs

  lemma PickWeight(slices: seq<Slice>, k: nat)
    requires k < |slices|
    ensures Weight([slices[k]] + (slices[..k] + slices[k + 1..])) == Weight(slices)
  {
    hide Weight;
    var before, picked, after := slices[..k], [slices[k]], slices[k + 1..];
    WeightAppend(picked, before + after);
    WeightAppend(before, after);
    WeightAppend(before, picked);
    WeightAppend(before + picked, after);
    assert slices == before + picked + after;
  }

  lemma {:induction false} WeightPositive(slices: seq<Slice>, n: nat)
    requires forall k :: 0 <= k < |slices| ==> InBounds(slices[k], n)
    ensures Weight(slices) >= |slices|
  {
    if slices != [] {
      WeightPositive(slices[..|slices| - 1], n);
    }
  }

  /** Every slice counts once per size less one half; the first split counts one more. */
  function Measure(slices: seq<Slice>, first: bool): int {
    Weight(slices) + if first then 1 else 0
  }

  /** The invariant gives the job manager what it needs. */
  lemma InvReady(t: Task, order: seq<nat>, slices: seq<Slice>, root: Node, next: nat, labels: seq<Label>)
    requires LearnInv(t, order, slices, root, next, labels)
    ensures ValidTask(t) && |labels| == |t.data| && Indices(order, |t.data|) && Closed(labels, t.hs)
    ensures forall k :: 0 <= k < |slices| ==> InBounds(slices[k], |order|)
    ensures ValidNode(root, t.meta)
  {
  }

  /** Permuting the slice in front of the list keeps the invariant. */
  lemma PermuteKeeps(t: Task, a: seq<nat>, b: seq<nat>, sl: Slice, rest: seq<Slice>, root: Node, next: nat,
                     labels: seq<Label>)
    requires LearnInv(t, a, [sl] + rest, root, next, labels) && Permuted(a, b, sl.left, sl.right)
    ensures LearnInv(t, b, [sl] + rest, root, next, labels)
    ensures InBounds(sl, |b|) && Indices(b, |t.data|)
  {
    SameMembers(a, b, sl);
    RearrangeKeeps(t, a, b, sl, rest, root, next, labels);
    assert ([sl] + rest)[0] == sl;
  }

  lemma LeafJobKeeps(t: Task, order: seq<nat>, sl: Slice, rest: seq<Slice>, root: Node, next: nat,
                     labels: seq<Label>, value: bool, pos: set<nat>, neg: set<nat>)
    requires LearnInv(t, order, [sl] + rest, root, next, labels) && InBounds(sl, |order|)
    requires LeafLabels(labels, t.hs, Members(order, sl), value, pos, neg)
    ensures LearnInv(t, order, rest, Fill(root, sl.address, Leaf(value)), next, Apply(labels, pos, neg))
    ensures Grows(labels, Apply(labels, pos, neg))
  {
    ApplyGrows(labels, pos, neg);
    LeafKeeps(t, order, sl, rest, root, next, labels, value, Apply(labels, pos, neg));
  }

  lemma SplitShrinks(sl: Slice, rest: seq<Slice>, parts: seq<Slice>)
    requires sl.left <= sl.right && Tiles(parts, sl.left, sl.right)
    ensures Weight(rest + parts) == Weight([sl] + rest) + 1 - |parts|
  {
    WeightAppend(rest, parts);
    WeightAppend([sl], rest);
    TilesWeight(parts, sl.left, sl.right);
    assert [sl][..0] == [];
  }

  lemma LeafShrinks(sl: Slice, rest: seq<Slice>)
    requires sl.left <= sl.right
    ensures Weight(rest) < Weight([sl] + rest)
  {
    WeightAppend([sl], rest);
    assert [sl][..0] == [];
  }

  lemma SplitJobKeeps(t: Task, before: seq<nat>, after: seq<nat>, sl: Slice, rest: seq<Slice>, root: Node, next: nat,
                      labels: seq<Label>, node: Node, parts: seq<Slice>, next': nat)
    requires LearnInv(t, before, [sl] + rest, root, next, labels) && Permuted(before, after, sl.left, sl.right)
    requires Splits(t, after, sl, node, next, parts) && Tiles(parts, sl.left, sl.right)
    requires next <= next' && forall part :: part in parts ==> part.address < next'
    ensures LearnInv(t, after, rest + parts, Fill(root, sl.address, node), next', labels)
    ensures Weight(rest + parts) == Weight([sl] + rest) + 1 - |parts|
  {
    PermuteKeeps(t, before, after, sl, rest, root, next, labels);
    SplitKeeps(t, after, sl, rest, root, next, labels, node, parts, next');
    SplitShrinks(sl, rest, parts);
  }

  lemma LegalCutSeparates(t: Task, order: seq<nat>, sl: Slice, threshold: Option<nat>, a: nat, cut: int)
    requires LegalCut(t, order, sl, threshold, a, cut)
    ensures CutSeparates(t, order, sl, a, cut) && InRange(threshold, cut)
  {
  }

  lemma CategoricalFirst(m: Manager, sl: Slice, job: Job, first: bool)
    requires InBounds(sl, m.order.Length) && job.CategoricalSplit? && m.Executable(m.order[..], sl, job, first)
    ensures job.attribute < |m.t.meta.numberOfCategories|
    ensures first || !OneCategory(m.t, m.order[..], sl, job.attribute)
  {
  }

  lemma OneCategoryStays(t: Task, before: seq<nat>, after: seq<nat>, sl: Slice, a: nat)
    requires Permuted(before, after, sl.left, sl.right)
    ensures OneCategory(t, before, sl, a) <==> OneCategory(t, after, sl, a)
  {
    SameMembers(before, after, sl);
  }

  lemma PermutedMultiset(before: seq<nat>, after: seq<nat>, sl: Slice)
    requires Permuted(before, after, sl.left, sl.right)
    ensures multiset(before) == multiset(after)
  {
  }

  // ---------- the shape of the tree ----------

  /** The node a job creates, when the first free address is `next`. */
  ghost function NodeOf(job: Job, next: nat, meta: Metadata): Node {
    match job
    case LeafCreation(value, _, _) => Leaf(value)
    case IntSplit(a, cut) => IntNode(a, cut, Hole(next), Hole(next + 1))
    case CategoricalSplit(a) =>
      CategoricalHoles(a, next, if a < |meta.numberOfCategories| then meta.numberOfCategories[a] else 0)
  }

  ghost function WidthOf(job: Job, meta: Metadata): nat {
    match job
    case LeafCreation(_, _, _) => 0
    case IntSplit(_, _) => 2
    case CategoricalSplit(a) => if a < |meta.numberOfCategories| then meta.numberOfCategories[a] else 0
  }

  /** After the first split, every slice has a single category. */
  lemma SliceOneCategory(t: Task, order: seq<nat>, sl: Slice, rest: seq<Slice>, root: Node, next: nat,
                         labels: seq<Label>, a: nat)
    requires LearnInv(t, order, [sl] + rest, root, next, labels) && ShapeInv(t, root, next, false)
    requires a < |t.meta.numberOfCategories|
    ensures OneCategory(t, order, sl, a)
  {
    assert sl in [sl] + rest;
    forall p, q: nat | Contains(order, sl, p) && Contains(order, sl, q)
      ensures CategoryOf(t.data, a, p) == CategoryOf(t.data, a, q)
    {
      ReachingOneCategory(t, root, sl.address, p, q);
    }
  }

  /** A cut that separates points of a slice is justified by the points that reach the slice's address. */
  lemma CutJustified(t: Task, order: seq<nat>, sl: Slice, rest: seq<Slice>, root: Node, next: nat, labels: seq<Label>,
                     threshold: Option<nat>, a: nat, cut: int)
    requires LearnInv(t, order, [sl] + rest, root, next, labels) && LegalCut(t, order, sl, threshold, a, cut)
    ensures Justified(IntNode(a, cut, Hole(next), Hole(next + 1)), t.data, Reaching(root, t, AllPoints(t), sl.address))
  {
    var D := Reaching(root, t, AllPoints(t), sl.address);
    assert sl in [sl] + rest;
    var p: nat :| Contains(order, sl, p) && IntOf(t.data, a, p) <= cut;
    var q: nat :| Contains(order, sl, q) && IntOf(t.data, a, q) > cut;
    var v: nat :| Contains(order, sl, v) && IntOf(t.data, a, v) == cut;
    assert p in D && q in D && v in D;
    assert p in Below(t.data, D, a, cut) && q in Above(t.data, D, a, cut);
  }

  lemma LeafShape(value: bool, data: seq<Datum>, D: set<nat>)
    ensures IntShape(Leaf(value)) && Separated(Leaf(value)) && Addresses(Leaf(value)) == {}
    ensures Justified(Leaf(value), data, D)
  {
  }

  lemma FillHole(address: nat, sub: Node)
    ensures Fill(Hole(address), address, sub) == sub
  {
  }

  lemma CutShape(a: nat, cut: int, next: nat)
    ensures var node := IntNode(a, cut, Hole(next), Hole(next + 1));
            IntShape(node) && Separated(node) && Addresses(node) == {next, next + 1}
  {
  }

  /** Every job keeps the shape of the tree. */
  lemma JobShape(m: Manager, order: seq<nat>, sl: Slice, rest: seq<Slice>, root: Node, next: nat, labels: seq<Label>,
                 job: Job, first: bool)
    requires LearnInv(m.t, order, [sl] + rest, root, next, labels) && ShapeInv(m.t, root, next, first)
    requires order == m.order[..] && InBounds(sl, m.order.Length) && m.Executable(order, sl, job, first)
    requires first ==> root == Hole(sl.address)
    ensures ShapeInv(m.t, Fill(root, sl.address, NodeOf(job, next, m.t.meta)), next + WidthOf(job, m.t.meta), false)
  {
    hide LearnInv, Justified, Separated, Addresses, LegalCut, LeafLabels, OneCategory, Fill, Closed;
    LearnValid(m.t, order, [sl] + rest, root, next, labels);
    match job
    case LeafCreation(value, _, _) =>
      LeafShape(value, m.t.data, Reaching(root, m.t, AllPoints(m.t), sl.address));
      FillShape(m.t, root, next, sl.address, Leaf(value), next);
    case IntSplit(a, cut) =>
      LegalCutSeparates(m.t, order, sl, m.threshold, a, cut);
      CutJustified(m.t, order, sl, rest, root, next, labels, m.threshold, a, cut);
      CutShape(a, cut, next);
      FillShape(m.t, root, next, sl.address, IntNode(a, cut, Hole(next), Hole(next + 1)), next + 2);
    case CategoricalSplit(a) =>
      CategoricalFirst(m, sl, job, first);
      if first {
        FirstShape(m.t, root, next, m.t.meta.numberOfCategories[0]);
        FillHole(sl.address, CategoricalHoles(0, next, m.t.meta.numberOfCategories[0]));
      } else {
        SliceOneCategory(m.t, order, sl, rest, root, next, labels, a);
      }
  }

  /** Runs one job on the slice at the head of the list. */
  method RunJob(m: Manager, tree: DecisionTree, sl: Slice, job: Job, ghost first: bool)
    requires LearnInv(m.t, m.order[..], [sl] + m.slices, tree.root, tree.next, m.points.labels)
    requires InBounds(sl, m.order.Length) && m.Executable(m.order[..], sl, job, first)
    requires m.threshold.Some? ==> CutsWithin(tree.root, m.threshold.value)
    modifies m`slices, m.order, m.points, tree
    ensures LearnInv(m.t, m.order[..], m.slices, tree.root, tree.next, m.points.labels)
    ensures Grows(old(m.points.labels), m.points.labels)
    ensures multiset(m.order[..]) == multiset(old(m.order[..]))
    ensures Measure(m.slices, false) < Measure([sl] + old(m.slices), first)
    ensures tree.root == Fill(old(tree.root), sl.address, NodeOf(job, old(tree.next), m.t.meta))
    ensures tree.next == old(tree.next) + WidthOf(job, m.t.meta)
    ensures m.points.labels == LabelsAfter(job, old(m.points.labels))
    ensures m.threshold.Some? ==> CutsWithin(tree.root, m.threshold.value)
  {
    ghost var rest, root, next := m.slices, tree.root, tree.next;
    match job
    case LeafCreation(value, pos, neg) =>
      LeafJobKeeps(m.t, m.order[..], sl, rest, root, next, m.points.labels, value, pos, neg);
      RunLeafCreation(m.points, tree, sl, value, pos, neg);
      LeafShrinks(sl, rest);
      NodeCuts(m.t.meta, job, next, root, sl.address, m.threshold);
    case IntSplit(a, cut) =>
      RunIntJob(m, tree, sl, job, first);
    case CategoricalSplit(a) =>
      RunCategoricalJob(m, tree, sl, job, first);
  }

  method RunIntJob(m: Manager, tree: DecisionTree, sl: Slice, job: Job, ghost first: bool)
    requires LearnInv(m.t, m.order[..], [sl] + m.slices, tree.root, tree.next, m.points.labels)
    requires InBounds(sl, m.order.Length) && m.Executable(m.order[..], sl, job, first) && job.IntSplit?
    requires m.threshold.Some? ==> CutsWithin(tree.root, m.threshold.value)
    modifies m`slices, m.order, tree
    ensures LearnInv(m.t, m.order[..], m.slices, tree.root, tree.next, m.points.labels)
    ensures multiset(m.order[..]) == multiset(old(m.order[..]))
    ensures Measure(m.slices, false) < Measure([sl] + old(m.slices), first)
    ensures tree.root == Fill(old(tree.root), sl.address, NodeOf(job, old(tree.next), m.t.meta))
    ensures tree.next == old(tree.next) + WidthOf(job, m.t.meta)
    ensures m.threshold.Some? ==> CutsWithin(tree.root, m.threshold.value)
  {
    hide LearnInv, Splits, Permuted, LegalCut, OneCategory, Tiles, Closed, Fill, CutsWithin;
    ghost var rest, root, next, before := m.slices, tree.root, tree.next, m.order[..];
    ghost var node := NodeOf(job, next, m.t.meta);
    InvReady(m.t, before, [sl] + rest, root, next, m.points.labels);
    LegalCutSeparates(m.t, before, sl, m.threshold, job.attribute, job.threshold);
    var parts := RunIntSplit(m.t, m.order, tree, sl, job.attribute, job.threshold);
    SplitJobKeeps(m.t, before, m.order[..], sl, rest, root, next, m.points.labels, node, parts, tree.next);
    PermutedMultiset(before, m.order[..], sl);
    NodeCuts(m.t.meta, job, next, root, sl.address, m.threshold);
    m.slices := m.slices + parts;
  }

  method RunCategoricalJob(m: Manager, tree: DecisionTree, sl: Slice, job: Job, ghost first: bool)
    requires LearnInv(m.t, m.order[..], [sl] + m.slices, tree.root, tree.next, m.points.labels)
    requires InBounds(sl, m.order.Length) && m.Executable(m.order[..], sl, job, first) && job.CategoricalSplit?
    requires m.threshold.Some? ==> CutsWithin(tree.root, m.threshold.value)
    modifies m`slices, m.order, tree
    ensures LearnInv(m.t, m.order[..], m.slices, tree.root, tree.next, m.points.labels)
    ensures multiset(m.order[..]) == multiset(old(m.order[..]))
    ensures Measure(m.slices, false) < Measure([sl] + old(m.slices), first)
    ensures tree.root == Fill(old(tree.root), sl.address, NodeOf(job, old(tree.next), m.t.meta))
    ensures tree.next == old(tree.next) + WidthOf(job, m.t.meta)
    ensures m.threshold.Some? ==> CutsWithin(tree.root, m.threshold.value)
  {
    hide LearnInv, Splits, Permuted, LegalCut, OneCategory, Tiles, Closed, Fill, CutsWithin;
    ghost var rest, root, next, before := m.slices, tree.root, tree.next, m.order[..];
    ghost var node := NodeOf(job, next, m.t.meta);
    InvReady(m.t, before, [sl] + rest, root, next, m.points.labels);
    CategoricalFirst(m, sl, job, first);
    var parts := RunCategoricalSplit(m.t, m.order, tree, sl, job.attribute);
    OneCategoryStays(m.t, before, m.order[..], sl, job.attribute);
    SplitJobKeeps(m.t, before, m.order[..], sl, rest, root, next, m.points.labels, node, parts, tree.next);
    PermutedMultiset(before, m.order[..], sl);
    NodeCuts(m.t.meta, job, next, root, sl.address, m.threshold);
    m.slices := m.slices + parts;
  }

  /** The cut of a job is within the bound. */
  lemma NodeCuts(meta: Metadata, job: Job, next: nat, root: Node, address: nat, threshold: Option<nat>)
    requires threshold.Some? ==> CutsWithin(root, threshold.value)
    requires job.IntSplit? ==> InRange(threshold, job.threshold)
    ensures threshold.Some? ==> CutsWithin(Fill(root, address, NodeOf(job, next, meta)), threshold.value)
  {
    if threshold.Some? {
      FillCuts(root, address, NodeOf(job, next, meta), threshold.value);
    }
  }

  /** Where the learner is. */
  ghost function Now(m: Manager, tree: DecisionTree): Progress
    reads m, m.points, tree
  {
    Progress(tree.root, tree.next, m.points.labels)
  }

  /** Every job is a step of a run. */
  lemma JobIsStep(m: Manager, before: seq<nat>, order: seq<nat>, sl: Slice, rest: seq<Slice>, root: Node, next: nat,
                  labels: seq<Label>, job: Job, first: bool)
    requires LearnInv(m.t, order, [sl] + rest, root, next, labels) && ShapeInv(m.t, root, next, first)
    requires order == m.order[..] && InBounds(sl, m.order.Length) && m.Executable(before, sl, job, first)
    requires labels == m.points.labels && InBounds(sl, |before|) && (!first ==> m.LeafIfPossible(before, sl, job))
    ensures Step(m.t, m.threshold, first, Progress(root, next, labels),
                 Progress(Fill(root, sl.address, NodeOf(job, next, m.t.meta)), next + WidthOf(job, m.t.meta),
                   LabelsAfter(job, labels)))
  {
    hide LearnInv, ShapeInv, Step, LeafLabels, LegalCut, CanBecome, CanBecomeLeaf, OneCategory, Fill;
    assert sl in [sl] + rest;
    MembersStay(before, order, sl);
    match job
    case LeafCreation(value, pos, neg) =>
      LeafJobIsStep(m.t, order, [sl] + rest, root, next, labels, sl, m.threshold, value, pos, neg);
    case IntSplit(a, cut) =>
      CutJobIsStep(m.t, order, [sl] + rest, root, next, labels, sl, m.threshold, a, cut);
    case CategoricalSplit(a) =>
      if first {
        FirstJobIsStep(m.t, order, [sl] + rest, root, next, labels, sl, m.threshold);
      } else {
        CategoricalFirst(m, sl, job, first);
        SliceOneCategory(m.t, order, sl, rest, root, next, labels, a);
      }
  }

  lemma MembersStay(before: seq<nat>, order: seq<nat>, sl: Slice)
    requires Permuted(before, order, sl.left, sl.right) && InBounds(sl, |before|)
    ensures InBounds(sl, |order|) && Members(before, sl) == Members(order, sl)
  {
    SameMembers(before, order, sl);
  }

  /** One round of the learning loop. */
  method LearnStep(m: Manager, tree: DecisionTree) returns (status: NextJob)
    requires LearnInv(m.t, m.order[..], m.slices, tree.root, tree.next, m.points.labels) && m.slices != []
    requires ShapeInv(m.t, tree.root, tree.next, m.isFirstSplit) &&
               (m.isFirstSplit ==> tree.root == Hole(m.slices[0].address))
    requires m.threshold.Some? ==> CutsWithin(tree.root, m.threshold.value)
    modifies m, m.order, m.points, m.solver, tree
    ensures Grows(old(m.points.labels), m.points.labels)
    ensures multiset(m.order[..]) == multiset(old(m.order[..]))
    ensures match status
            case Next(_, _) =>
              && Step(m.t, m.threshold, old(m.isFirstSplit), old(Now(m, tree)), Now(m, tree))
              && LearnInv(m.t, m.order[..], m.slices, tree.root, tree.next, m.points.labels)
              && ShapeInv(m.t, tree.root, tree.next, false) && !m.isFirstSplit
              && Measure(m.slices, m.isFirstSplit) < Measure(old(m.slices), old(m.isFirstSplit))
              && (m.threshold.Some? ==> CutsWithin(tree.root, m.threshold.value))
            case NotOneCategorical => old(m.isFirstSplit) && |m.t.meta.numberOfCategories| != 1
            case SplitNotPossible =>
              && FailureExplained(m.t, m.threshold, m.points.labels)
              && !old(m.isFirstSplit) && Ends(m.t, m.threshold, Now(m, tree), true, LearnSplitNotPossible)
    ensures !status.Next? ==> Now(m, tree) == old(Now(m, tree))
  {
    hide LearnInv, Closed, ValidTask, LegalJob, LeafLabels, ShapeInv, Stuck, CanBecomeLeaf, FailureExplained,
      CutsWithin, Members, Step, Ends, Fill;
    ghost var before, slices, first := m.order[..], m.slices, m.isFirstSplit;
    InvReady(m.t, before, slices, tree.root, tree.next, m.points.labels);
    ghost var k;
    status, k := m.GetNextJob();
    if status.Next? {
      var sl, job := status.slice, status.job;
      PickKeeps(m.t, before, slices, tree.root, tree.next, m.points.labels, k);
      PickWeight(slices, k);
      PermuteKeeps(m.t, before, m.order[..], sl, m.slices, tree.root, tree.next, m.points.labels);
      JobShape(m, m.order[..], sl, m.slices, tree.root, tree.next, m.points.labels, job, first);
      JobIsStep(m, before, m.order[..], sl, m.slices, tree.root, tree.next, m.points.labels, job, first);
      RunJob(m, tree, sl, job, first);
    } else if status.SplitNotPossible? {
      StuckExplained(m.t, before, slices[k], m.threshold, m.points.labels);
      StuckEnds(m.t, before, slices, tree.root, tree.next, m.points.labels, slices[k], m.threshold);
    }
  }

  /**
   Learns a decision tree.  Whatever slice is picked and however splits are scored, a learnt tree is
   consistent: it routes no data point to a missing child, outputs all labels, the given ones and
   those added while learning, and satisfies all constraints.  The result is that of a run of the transition
   system.  Learning fails only on two points of one category that some model of the sample tells apart:
   without a bound, if their data are equal; with one, if the bound cannot tell them apart or they lie on
   both sides of its least cut.
   */
  method Learn(m: Manager) returns (r: LearnResult)
    requires m.Ready() && m.slices == [] && m.isFirstSplit
    requires m.order.Length == |m.t.data| && forall p :: 0 <= p < |m.t.data| ==> p in m.order[..]
    modifies m, m.order, m.points, m.solver
    ensures Grows(old(m.points.labels), m.points.labels)
    ensures multiset(m.order[..]) == multiset(old(m.order[..]))
    ensures r.Learned? ==> ValidNode(r.tree, m.t.meta)
    ensures r.Learned? ==> Consistent(r.tree, m.t.data, m.t.meta, m.points.labels, m.t.hs)
    ensures r.Learned? ==> Consistent(r.tree, m.t.data, m.t.meta, old(m.points.labels), m.t.hs)
    ensures r.Learned? && m.threshold.Some? ==> CutsWithin(r.tree, m.threshold.value)
    ensures r.Learned? ==> r.tree.Leaf? || FinishedShape(r.tree, m.t)
    ensures r.LearnSplitNotPossible? ==> FailureExplained(m.t, m.threshold, old(m.points.labels))
    ensures RunResult(m.t, m.threshold, old(m.points.labels), r)
    ensures Distinct(old(m.order[..])) ==> Distinct(m.order[..])
    ensures r.LearnNotOneCategorical? ==> |m.t.meta.numberOfCategories| != 1
  {
    if m.order.Length == 0 {
      r := Learned(Leaf(true));
      EmptyConsistent(m.t, m.points.labels);
      return;
    }
    var tree := new DecisionTree();
    m.slices := m.slices + [Slice(0, m.order.Length - 1, 0)];
    StartKeeps(m.t, m.order[..], m.points.labels);
    assert m.slices == [Slice(0, m.order.Length - 1, 0)];
    ghost var labels, original := m.points.labels, m.order[..];
    StartShape(m.t);
    var status;
    ghost var trace;
    status, trace := LearnLoop(m, tree);
    if Distinct(original) {
      PermutedDistinct(original, m.order[..]);
    }
    match status
    case Next(_, _) =>
      r := Learned(tree.root);
      FinishedLearning(m.t, m.order[..], tree.root, tree.next, labels, m.points.labels, m.threshold, trace);
    case NotOneCategorical => r := LearnNotOneCategorical;
    case SplitNotPossible =>
      r := LearnSplitNotPossible;
      FailureOfFewer(m.t, m.threshold, labels, m.points.labels);
  }

  lemma StartShape(t: Task)
    ensures ShapeInv(t, Hole(0), 1, true)
  {
  }

  /** What the finished tree is. */
  lemma FinishedLearning(t: Task, order: seq<nat>, root: Node, next: nat, labels: seq<Label>, after: seq<Label>,
                         threshold: Option<nat>, trace: seq<Progress>)
    requires LearnInv(t, order, [], root, next, after) && ShapeInv(t, root, next, false) && Grows(labels, after)
    requires t.data != [] && IsRun(t, threshold, labels, trace) && |trace| > 1
    requires trace[|trace| - 1] == Progress(root, next, after)
    ensures ValidNode(root, t.meta) && Consistent(root, t.data, t.meta, labels, t.hs)
    ensures Consistent(root, t.data, t.meta, after, t.hs)
    ensures FinishedShape(root, t) && RunResult(t, threshold, labels, Learned(root))
  {
    hide IsRun, Ends;
    FinishedConsistent(t, order, root, next, after);
    ShapeFinished(root, t, next);
    StillConsistent(root, t, labels, after);
    FinishedEnds(t, order, root, next, after, threshold);
  }

  lemma FirstProgress(t: Task, order: seq<nat>, slices: seq<Slice>, labels: seq<Label>, threshold: Option<nat>)
    requires LearnInv(t, order, slices, Hole(0), 1, labels)
    ensures ValidTask(t) && IsRun(t, threshold, labels, [Progress(Hole(0), 1, labels)])
    ensures threshold.Some? ==> CutsWithin(Hole(0), threshold.value)
  {
  }

  /** The loop, from the first slice on, and the run it makes. */
  method LearnLoop(m: Manager, tree: DecisionTree) returns (status: NextJob, ghost trace: seq<Progress>)
    requires LearnInv(m.t, m.order[..], m.slices, tree.root, tree.next, m.points.labels) && m.isFirstSplit
    requires ShapeInv(m.t, tree.root, tree.next, true) && Now(m, tree) == Progress(Hole(0), 1, m.points.labels)
    requires m.order.Length > 0 && m.slices == [Slice(0, m.order.Length - 1, 0)]
    modifies m, m.order, m.points, m.solver, tree
    ensures Grows(old(m.points.labels), m.points.labels) && multiset(m.order[..]) == multiset(old(m.order[..]))
    ensures IsRun(m.t, m.threshold, old(m.points.labels), trace) && trace[|trace| - 1] == Now(m, tree)
    ensures match status
            case Next(_, _) =>
              && LearnInv(m.t, m.order[..], [], tree.root, tree.next, m.points.labels)
              && ShapeInv(m.t, tree.root, tree.next, false) && |trace| > 1
              && (m.threshold.Some? ==> CutsWithin(tree.root, m.threshold.value))
            case NotOneCategorical => |m.t.meta.numberOfCategories| != 1 && |trace| == 1
            case SplitNotPossible =>
              && FailureExplained(m.t, m.threshold, m.points.labels)
              && |trace| > 1 && Ends(m.t, m.threshold, Now(m, tree), true, LearnSplitNotPossible)
  {
    hide LearnInv, ShapeInv, IsRun, Ends, FailureExplained, CutsWithin;
    trace := [Now(m, tree)];
    status := Next(m.slices[0], CategoricalSplit(0));
    ghost var labels, original := m.points.labels, m.order[..];
    FirstProgress(m.t, m.order[..], m.slices, labels, m.threshold);
    while m.slices != [] && status.Next?
      invariant Grows(labels, m.points.labels) && multiset(m.order[..]) == multiset(original)
      invariant status.Next? ==> LearnInv(m.t, m.order[..], m.slices, tree.root, tree.next, m.points.labels)
      invariant status.Next? ==> ShapeInv(m.t, tree.root, tree.next, m.isFirstSplit)
      invariant status.Next? && m.isFirstSplit ==> tree.root == Hole(0) && m.slices == [Slice(0, m.order.Length - 1, 0)]
      invariant status.Next? && m.threshold.Some? ==> CutsWithin(tree.root, m.threshold.value)
      invariant status.NotOneCategorical? ==> |m.t.meta.numberOfCategories| != 1 && |trace| == 1
      invariant status.SplitNotPossible? ==> FailureExplained(m.t, m.threshold, m.points.labels)
      invariant trace != [] && IsRun(m.t, m.threshold, labels, trace) && trace[|trace| - 1] == Now(m, tree)
      invariant status.Next? ==> (m.isFirstSplit <==> |trace| == 1)
      invariant status.SplitNotPossible? ==>
                  |trace| > 1 && Ends(m.t, m.threshold, Now(m, tree), true, LearnSplitNotPossible)
      decreases status.Next?, Measure(m.slices, m.isFirstSplit)
    {
      hide Step;
      LearnMeasure(m.t, m.order[..], m.slices, tree.root, tree.next, m.points.labels);
      status := LearnStep(m, tree);
      if status.Next? {
        ExtendRun(m.t, m.threshold, labels, trace, Now(m, tree));
        trace := trace + [Now(m, tree)];
      }
    }
  }

  lemma LearnMeasure(t: Task, order: seq<nat>, slices: seq<Slice>, root: Node, next: nat, labels: seq<Label>)
    requires LearnInv(t, order, slices, root, next, labels)
    ensures Weight(slices) >= 0
  {
    WeightPositive(slices, |order|);
  }

  lemma EmptyConsistent(t: Task, labels: seq<Label>)
    requires ValidTask(t) && |labels| == |t.data| == 0 && Closed(labels, t.hs)
    ensures Consistent(Leaf(true), t.data, t.meta, labels, t.hs)
  {
    assert TruePoints(Leaf(true), t.data, t.meta) == TrueSet(labels);
  }

  /** Consistency with more labels is consistency with fewer. */
  lemma StillConsistent(tree: Node, t: Task, few: seq<Label>, many: seq<Label>)
    requires ValidTask(t) && ValidNode(tree, t.meta) && Grows(few, many)
    requires Consistent(tree, t.data, t.meta, many, t.hs)
    ensures Consistent(tree, t.data, t.meta, few, t.hs)
  {
    assert forall p: nat :: LabelOf(few, p).Classified? ==> LabelOf(many, p) == LabelOf(few, p);
  }

  // ---------- checking consistency ----------

  /** Does the tree output the labels?  No result if a labelled point is routed to a missing child. */
  method CheckLabels(tree: Node, t: Task, labels: seq<Label>) returns (r: Option<bool>)
    requires ValidTask(t) && ValidNode(tree, t.meta) && |labels| == |t.data|
    ensures r == Some(true) ==> forall p :: 0 <= p < |labels| && labels[p].Classified? ==>
              Output(tree, t.data[p], t.meta) == Some(labels[p].value)
    ensures r == Some(false) ==>
              exists p :: 0 <= p < |labels| && labels[p].Classified? &&
                Output(tree, t.data[p], t.meta) != Some(labels[p].value)
    ensures Total(tree, t.data, t.meta) ==> r.Some?
  {
    r := Some(true);
    var p := 0;
    while p < |labels| && r == Some(true)
      invariant 0 <= p <= |labels|
      invariant r == Some(true) ==> forall q :: 0 <= q < p && labels[q].Classified? ==>
                  Output(tree, t.data[q], t.meta) == Some(labels[q].value)
      invariant r == Some(false) ==>
                  exists q :: 0 <= q < |labels| && labels[q].Classified? &&
                    Output(tree, t.data[q], t.meta) != Some(labels[q].value)
      invariant Total(tree, t.data, t.meta) ==> r.Some?
    {
      assert ValidDatum(t.data[p], t.meta);
      if labels[p].Classified? {
        var output := Output(tree, t.data[p], t.meta);
        r := if output.None? then None else Some(output.value == labels[p].value);
      }
      p := p + 1;
    }
  }

  /** Are all premises true in the tree?  Stops at the first one that is false. */
  method CheckPremises(tree: Node, t: Task, premises: seq<nat>) returns (r: Option<bool>)
    requires ValidTask(t) && ValidNode(tree, t.meta) && forall p :: p in premises ==> p < |t.data|
    ensures r.Some? ==> (r.value <==> forall p :: p in premises ==> p in TruePoints(tree, t.data, t.meta))
    ensures Total(tree, t.data, t.meta) ==> r.Some?
  {
    r := Some(true);
    var k := 0;
    while k < |premises| && r == Some(true)
      invariant 0 <= k <= |premises|
      invariant r == Some(true) ==> forall j :: 0 <= j < k ==> premises[j] in TruePoints(tree, t.data, t.meta)
      invariant r == Some(false) ==> exists p :: p in premises && p !in TruePoints(tree, t.data, t.meta)
      invariant Total(tree, t.data, t.meta) ==> r.Some?
    {
      assert premises[k] in premises && ValidDatum(t.data[premises[k]], t.meta);
      r := Output(tree, t.data[premises[k]], t.meta);
      k := k + 1;
    }
  }

  /**
   Checks a tree against a sample.  On a tree that is defined on all data points the answer is right;
   on any tree, a positive answer means that the points it makes true are a model.
   */
  method IsConsistent(tree: Node, t: Task, labels: seq<Label>) returns (r: Option<bool>)
    requires ValidTask(t) && ValidNode(tree, t.meta) && |labels| == |t.data|
    ensures tree.Hole? ==> r == Some(false)
    ensures !tree.Hole? && Total(tree, t.data, t.meta) ==>
              r.Some? && (r.value <==> Consistent(tree, t.data, t.meta, labels, t.hs))
    ensures r == Some(true) ==> Model(TruePoints(tree, t.data, t.meta), labels, t.hs)
  {
    if tree.Hole? {
      return Some(false);
    }
    r := CheckLabels(tree, t, labels);
    ghost var S := TruePoints(tree, t.data, t.meta);
    LabelsAgree(tree, t, labels, r);
    var k := 0;
    while k < |t.hs| && r == Some(true)
      invariant 0 <= k <= |t.hs|
      invariant r == Some(true) ==> Agrees(S, labels) && forall j :: 0 <= j < k ==> Satisfies(S, t.hs[j])
      invariant r == Some(false) && Total(tree, t.data, t.meta) ==> !Model(S, labels, t.hs)
      invariant Total(tree, t.data, t.meta) ==> r.Some?
    {
      assert WellFormed(t.hs[k], |t.data|);
      var lhs := CheckPremises(tree, t, t.hs[k].premises);
      if lhs == Some(true) {
        if t.hs[k].conclusion.None? {
          r := Some(false);
        } else {
          assert ValidDatum(t.data[t.hs[k].conclusion.value], t.meta);
          r := Output(tree, t.data[t.hs[k].conclusion.value], t.meta);
        }
        assert r == Some(true) <==> Satisfies(S, t.hs[k]);
      } else if lhs.None? {
        r := None;
      }
      k := k + 1;
    }
  }

  lemma LabelsAgree(tree: Node, t: Task, labels: seq<Label>, r: Option<bool>)
    requires ValidTask(t) && ValidNode(tree, t.meta) && |labels| == |t.data|
    requires r == Some(true) ==> forall p :: 0 <= p < |labels| && labels[p].Classified? ==>
               Output(tree, t.data[p], t.meta) == Some(labels[p].value)
    requires r == Some(false) ==>
               exists p :: 0 <= p < |labels| && labels[p].Classified? &&
                 Output(tree, t.data[p], t.meta) != Some(labels[p].value)
    ensures r == Some(true) ==> Agrees(TruePoints(tree, t.data, t.meta), labels)
    ensures r == Some(false) && Total(tree, t.data, t.meta) ==> !Agrees(TruePoints(tree, t.data, t.meta), labels)
  {
    var S := TruePoints(tree, t.data, t.meta);
    if r == Some(false) && Total(tree, t.data, t.meta) {
      var p :| 0 <= p < |labels| && labels[p].Classified? && Output(tree, t.data[p], t.meta) != Some(labels[p].value);
      assert LabelOf(labels, p) == labels[p];
      assert p in S <==> !labels[p].value;
    }
  }
}
