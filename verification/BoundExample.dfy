/**
 A sample on which a bounded attempt fails although the bound can tell its points apart, and one for which a
 bound suffices.
 */
module BoundExample {
  import opened Horn
  import opened Tree
  import opened Slices
  import opened Jobs
  import opened JobManager
  import opened Bounds
  import opened TreeShape
  import opened Driver

  /** The values -5 and 5, labelled true and false. */
  const SAMPLE := Task([Datum([0], [-5]), Datum([0], [5])], Metadata([1], 1), [])
  const LABELS := [Classified(true), Classified(false)]

  lemma SampleValid()
    ensures ValidTask(SAMPLE) && Closed(LABELS, SAMPLE.hs)
  {
    assert Model({0}, LABELS, SAMPLE.hs) && TrueSet(LABELS) == {0};
  }

  /**
   With bound 1 the cut 0 would do, but cuts are made at data values only: the slice of both points can
   neither become a leaf nor be split.  Without a bound it can be split.
   */
  lemma BoundMissesCut()
    ensures Separable(SAMPLE.data[0], SAMPLE.data[1], 1)
    ensures Stuck(SAMPLE, [0, 1], Slice(0, 1, 1), Some(1), LABELS)
    ensures !Stuck(SAMPLE, [0, 1], Slice(0, 1, 1), None, LABELS)
  {
    hide NoSplit, CanBecomeLeaf, Members;
    assert CutBetween(SAMPLE.data[0].ints[0], SAMPLE.data[1].ints[0], 0, 1);
    MixedSlice();
  }

  /** Every attempt on the sample under this bound ends without a split. */
  lemma AttemptFails(r: Outcome)
    requires ValidTask(SAMPLE) && AttemptOutcome(SAMPLE, LABELS, Some(1), r) && ShapedOutcome(SAMPLE, r)
    ensures r.NoSplitPossible?
  {
    match r
    case LearntTree(tree) => NotConsistent(tree);
    case SampleContradictory => CutConsistent();
    case _ =>
  }

  lemma MixedSlice()
    ensures !CanBecomeLeaf(LABELS, SAMPLE.hs, Members([0, 1], Slice(0, 1, 1)))
    ensures NoSplit(SAMPLE, [0, 1], Slice(0, 1, 1), Some(1))
    ensures !NoSplit(SAMPLE, [0, 1], Slice(0, 1, 1), None)
  {
    var order, sl: Slice := [0, 1], Slice(0, 1, 1);
    forall p | Contains(order, sl, p) ensures p == 0 || p == 1 {}
    assert order[0] == 0 && order[1] == 1 && Contains(order, sl, 0) && Contains(order, sl, 1);
    assert IntOf(SAMPLE.data, 0, 0) == -5 && IntOf(SAMPLE.data, 0, 1) == 5;
    assert !NoLegalCut(SAMPLE, order, sl, None, 0);
  }

  /** A tree that tells the points apart is within the bound. */
  lemma CutConsistent()
    requires ValidTask(SAMPLE)
    ensures var tree := IntNode(0, 0, Leaf(true), Leaf(false));
            ValidNode(tree, SAMPLE.meta) && CutsWithin(tree, 1) &&
              Consistent(tree, SAMPLE.data, SAMPLE.meta, LABELS, SAMPLE.hs)
  {
    var tree := IntNode(0, 0, Leaf(true), Leaf(false));
    assert ValidNode(tree.left, SAMPLE.meta) && ValidNode(tree.right, SAMPLE.meta);
    assert CutsWithin(tree.left, 1) && CutsWithin(tree.right, 1);
    assert Reach(tree, SAMPLE.data[0], SAMPLE.meta) == Leaf(true) &&
        Reach(tree, SAMPLE.data[1], SAMPLE.meta) == Leaf(false);
    assert TruePoints(tree, SAMPLE.data, SAMPLE.meta) == {0};
    assert Agrees({0}, LABELS);
  }

  /** No tree within the bound whose cuts are data values does. */
  lemma NotConsistent(tree: Node)
    requires ValidTask(SAMPLE) && ValidNode(tree, SAMPLE.meta) && CutsWithin(tree, 1)
    requires tree.Leaf? || FinishedShape(tree, SAMPLE)
    ensures !Consistent(tree, SAMPLE.data, SAMPLE.meta, LABELS, SAMPLE.hs)
  {
    var S := TruePoints(tree, SAMPLE.data, SAMPLE.meta);
    assert LabelOf(LABELS, 0) == Classified(true) && LabelOf(LABELS, 1) == Classified(false);
    assert Agrees(S, LABELS) ==> 0 in S && 1 !in S;
    if tree.CategoricalNode? {
      NoCut(tree.children[0], InCategory(SAMPLE.data, AllPoints(SAMPLE), 0, 0));
      forall p | 0 <= p < 2 ensures Reach(tree, SAMPLE.data[p], SAMPLE.meta) == tree.children[0] {
        assert SAMPLE.data[p].categories[0] == 0;
      }
    }
    assert Output(tree, SAMPLE.data[0], SAMPLE.meta) == Output(tree, SAMPLE.data[1], SAMPLE.meta);
  }

  lemma NoCut(node: Node, D: set<nat>)
    requires ValidNode(node, SAMPLE.meta) && CutsWithin(node, 1) && Justified(node, SAMPLE.data, D) &&
               D <= AllPoints(SAMPLE)
    ensures !node.IntNode?
  {
    assert forall p :: p in D ==> IntOf(SAMPLE.data, 0, p) == -5 || IntOf(SAMPLE.data, 0, p) == 5;
  }

  // ---------- a bound that takes effect ----------

  const WIDE := Task([Datum([0], [5, 0]), Datum([0], [9, 1]), Datum([0], [5, 2])], Metadata([1], 2), [])
  const WIDE_LABELS := [Classified(true), Classified(false), Classified(true)]

  /** Bound 1 suffices for this sample, so with bounds all cuts of the tree are between -1 and 1. */
  lemma BoundOneSuffices()
    ensures ValidTask(WIDE) && BoundSuffices(WIDE, WIDE_LABELS, 1)
  {
    assert ValidDatum(WIDE.data[0], WIDE.meta) && ValidDatum(WIDE.data[1], WIDE.meta) &&
        ValidDatum(WIDE.data[2], WIDE.meta);
    assert CutBetween(WIDE.data[0].ints[1], WIDE.data[1].ints[1], 0, 1);
    assert CutBetween(WIDE.data[0].ints[1], WIDE.data[2].ints[1], 0, 1);
    assert CutBetween(WIDE.data[1].ints[1], WIDE.data[2].ints[1], 1, 1);
    assert BoundConstraints([], WIDE.data, WIDE.meta, 1);
    assert WIDE == WIDE.(hs := WIDE.hs + []);
    assert Enlarges(WIDE, WIDE, Some(1));
    assert Model({0, 2}, WIDE_LABELS, WIDE.hs);
    assert forall a, p: nat :: p < 3 ==> IntOf(WIDE.data, a, p) >= 0;
  }

  /** Without bounds the tree may be another one: this is consistent, but cuts at 5. */
  lemma OtherTree()
    requires ValidTask(WIDE)
    ensures var tree := IntNode(0, 5, Leaf(true), Leaf(false));
            && ValidNode(tree, WIDE.meta) && Consistent(tree, WIDE.data, WIDE.meta, WIDE_LABELS, WIDE.hs)
            && !CutsWithin(tree, 1)
  {
    var tree := IntNode(0, 5, Leaf(true), Leaf(false));
    assert ValidNode(tree.left, WIDE.meta) && ValidNode(tree.right, WIDE.meta);
    assert Reach(tree, WIDE.data[0], WIDE.meta) == Leaf(true) && Reach(tree, WIDE.data[1], WIDE.meta) == Leaf(false);
    assert Reach(tree, WIDE.data[2], WIDE.meta) == Leaf(true);
    assert TruePoints(tree, WIDE.data, WIDE.meta) == {0, 2};
    assert Agrees({0, 2}, WIDE_LABELS);
  }

  // ---------- labels that agree ----------

  /** The same values with two positive labels: no model tells the points apart, so no attempt ends without a split. */
  lemma AgreeingLabels(r: Outcome)
    requires ValidTask(SAMPLE) && AttemptOutcome(SAMPLE, [Classified(true), Classified(true)], Some(1), r)
    ensures !r.NoSplitPossible?
  {
    var labels := [Classified(true), Classified(true)];
    assert LabelOf(labels, 0) == Classified(true) && LabelOf(labels, 1) == Classified(true);
    assert forall S :: Model(S, labels, SAMPLE.hs) ==> 0 in S && 1 in S;
  }

  /** Nor do equal data points, if their labels agree. */
  lemma EqualPoints(r: Outcome)
    requires var t := Task([Datum([0], [3]), Datum([0], [3])], Metadata([1], 1), []);
             ValidTask(t) && AttemptOutcome(t, [Classified(true), Classified(true)], None, r)
    ensures !r.NoSplitPossible?
  {
    var labels := [Classified(true), Classified(true)];
    assert LabelOf(labels, 0) == Classified(true) && LabelOf(labels, 1) == Classified(true);
    assert forall S :: Model(S, labels, []) ==> 0 in S && 1 in S;
  }
}
