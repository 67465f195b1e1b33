/**
 The job manager: decides when a slice becomes a leaf, and how it is split otherwise.
 */
module JobManager {
  import opened Horn
  import opened HornSolver
  import opened Tree
  import opened Slices
  import opened Sorting
  import opened Jobs
  import opened HornAssignments

  // ---------- when a slice can become a leaf ----------

  function Members(order: seq<nat>, sl: Slice): (s: set<nat>)
    requires InBounds(sl, |order|)
    ensures forall p :: p in s <==> Contains(order, sl, p)
  {
    var part := order[sl.left..sl.right + 1];
    assert forall i :: sl.left <= i <= sl.right ==> order[i] == part[i - sl.left];
    set p | p in part
  }

  /** All members can get the same label: none has the other one, and the constraints stay satisfiable. */
  ghost predicate CanBecome(labels: seq<Label>, hs: seq<Constraint>, members: set<nat>, value: bool) {
    && (forall p :: p in members ==> p < |labels| && labels[p] != Classified(!value))
    && Satisfiable(LabelledAlike(labels, members, value), hs)
  }

  /** A slice without a positive point can always become a negative leaf. */
  lemma NoPositiveCanBecome(labels: seq<Label>, hs: seq<Constraint>, members: set<nat>)
    requires Closed(labels, hs)
    requires forall p :: p in members ==> p < |labels| && labels[p] != Classified(true)
    ensures CanBecome(labels, hs, members, false)
  {
    var open := set p | p in members && labels[p].Unclassified?;
    ClosedAllowsFalse(labels, hs, open);
    assert Apply(labels, {}, open) == Apply(labels, {}, members);
  }

  /** A slice with a single point can always become a leaf. */
  lemma SingletonCanBecome(labels: seq<Label>, hs: seq<Constraint>, p: nat)
    requires Closed(labels, hs) && p < |labels|
    ensures CanBecome(labels, hs, {p}, true) || CanBecome(labels, hs, {p}, false)
  {
    if labels[p] == Classified(true) {
      assert Apply(labels, {p}, {}) == labels;
    } else {
      NoPositiveCanBecome(labels, hs, {p});
    }
  }

  /** Labelling the unclassified members is labelling all of them, if the others have that label already. */
  lemma LabelMembers(labels: seq<Label>, members: set<nat>, open: set<nat>, value: bool)
    requires forall p :: p in members ==> p < |labels| && labels[p] != Classified(!value)
    requires open == set p | p in members && labels[p].Unclassified?
    ensures if value then Apply(labels, open, {}) == Apply(labels, members, {})
              else Apply(labels, {}, open) == Apply(labels, {}, members)
  {
  }

  datatype LabelScan = LabelScan(foundTrue: bool, foundFalse: bool, foundUnlabeled: bool, first: nat, last: nat)

  /** What the scan over a slice reports; it stops early once both labels have been seen. */
  ghost predicate ScanFaithful(s: LabelScan, order: seq<nat>, labels: seq<Label>, left: nat, end: nat)
    requires end <= |order| && Indices(order, |labels|)
  {
    && (s.foundTrue <==> exists i :: left <= i < end && labels[order[i]] == Classified(true))
    && (s.foundFalse <==> exists i :: left <= i < end && labels[order[i]] == Classified(false))
    && (s.foundUnlabeled <==> exists i :: left <= i < end && labels[order[i]].Unclassified?)
    && (s.foundUnlabeled ==> left <= s.first <= s.last < end)
    && (forall i :: left <= i < end && labels[order[i]].Unclassified? ==> s.first <= i <= s.last)
  }

  function ScanStep(s: LabelScan, classification: Label, i: nat): LabelScan {
    if classification == Classified(true) then s.(foundTrue := true)
    else if classification == Classified(false) then s.(foundFalse := true)
    else if !s.foundUnlabeled then s.(foundUnlabeled := true, first := i, last := i)
    else s.(last := i)
  }

  lemma ScanStepFaithful(s: LabelScan, order: seq<nat>, labels: seq<Label>, left: nat, i: nat)
    requires left <= i < |order| && Indices(order, |labels|) && ScanFaithful(s, order, labels, left, i)
    ensures ScanFaithful(ScanStep(s, labels[order[i]], i), order, labels, left, i + 1)
  {
  }

  /** Both labels occur in the slice. */
  ghost predicate Mixed(labels: seq<Label>, order: seq<nat>, sl: Slice)
    requires InBounds(sl, |order|) && Indices(order, |labels|)
  {
    exists i, j :: sl.left <= i <= sl.right && sl.left <= j <= sl.right &&
                   labels[order[i]] == Classified(true) && labels[order[j]] == Classified(false)
  }

  lemma MixedCannotBecome(labels: seq<Label>, hs: seq<Constraint>, order: seq<nat>, sl: Slice)
    requires InBounds(sl, |order|) && Indices(order, |labels|) && Mixed(labels, order, sl)
    ensures !CanBecome(labels, hs, Members(order, sl), true) && !CanBecome(labels, hs, Members(order, sl), false)
  {
    var i, j :| sl.left <= i <= sl.right && sl.left <= j <= sl.right &&
                labels[order[i]] == Classified(true) && labels[order[j]] == Classified(false);
    assert order[i] in Members(order, sl) && order[j] in Members(order, sl);
  }

  /** The labels with all members labelled alike. */
  function LabelledAlike(labels: seq<Label>, members: set<nat>, value: bool): seq<Label> {
    if value then Apply(labels, members, {}) else Apply(labels, {}, members)
  }

  /**
   The labels to be set for a leaf: every member gets the leaf's label, and otherwise what this forces, and no
   more.
   */
  ghost predicate LeafLabels(labels: seq<Label>, hs: seq<Constraint>, members: set<nat>, value: bool, pos: set<nat>,
                             neg: set<nat>) {
    && Compatible(labels, pos, neg)
    && Closed(Apply(labels, pos, neg), hs)
    && (forall p :: p in members ==> p < |labels| && Apply(labels, pos, neg)[p] == Classified(value))
    && forall S :: Model(S, Apply(labels, pos, neg), hs) <==> Model(S, LabelledAlike(labels, members, value), hs)
  }

  lemma SolvedLeaf(labels: seq<Label>, hs: seq<Constraint>, members: set<nat>, open: set<nat>, value: bool,
                   pos: set<nat>, neg: set<nat>)
    requires forall p :: p in members ==> p < |labels| && labels[p] != Classified(!value)
    requires open == set p | p in members && labels[p].Unclassified?
    requires Compatible(labels, pos, neg) && Closed(Apply(labels, pos, neg), hs)
    requires if value then open <= pos else open <= neg
    requires forall S :: Model(S, Apply(labels, pos, neg), hs) <==> Model(S, LabelledAlike(labels, members, value), hs)
    ensures LeafLabels(labels, hs, members, value, pos, neg)
  {
  }

  /** All members have one label already. */
  lemma LabelledCanBecome(labels: seq<Label>, hs: seq<Constraint>, members: set<nat>, value: bool)
    requires Closed(labels, hs) && forall p :: p in members ==> p < |labels| && labels[p] == Classified(value)
    ensures CanBecome(labels, hs, members, value) && LeafLabels(labels, hs, members, value, {}, {})
  {
    assert Apply(labels, {}, {}) == labels;
    if value {
      assert Apply(labels, members, {}) == labels;
    } else {
      assert Apply(labels, {}, members) == labels;
    }
  }

  /** What a faithful scan says about the members of the slice. */
  lemma ScanMembers(s: LabelScan, order: seq<nat>, labels: seq<Label>, sl: Slice)
    requires InBounds(sl, |order|) && Indices(order, |labels|) && ScanFaithful(s, order, labels, sl.left, sl.right + 1)
    ensures forall p :: p in Members(order, sl) ==>
              match labels[p]
              case Classified(v) => if v then s.foundTrue else s.foundFalse
              case Unclassified => s.foundUnlabeled
    ensures s.foundTrue ==> exists p :: p in Members(order, sl) && labels[p] == Classified(true)
    ensures s.foundFalse ==> exists p :: p in Members(order, sl) && labels[p] == Classified(false)
  {
    forall p | p in Members(order, sl)
      ensures match labels[p]
              case Classified(v) => if v then s.foundTrue else s.foundFalse
              case Unclassified => s.foundUnlabeled
    {
      var i :| sl.left <= i <= sl.right && order[i] == p;
    }
    if s.foundTrue {
      var i :| sl.left <= i < sl.right + 1 && labels[order[i]] == Classified(true);
      assert order[i] in Members(order, sl);
    }
    if s.foundFalse {
      var i :| sl.left <= i < sl.right + 1 && labels[order[i]] == Classified(false);
      assert order[i] in Members(order, sl);
    }
  }

  lemma OpenMembers(s: LabelScan, order: seq<nat>, labels: seq<Label>, sl: Slice, open: set<nat>)
    requires InBounds(sl, |order|) && Indices(order, |labels|) && ScanFaithful(s, order, labels, sl.left, sl.right + 1)
    requires s.foundUnlabeled
    requires forall p :: p in open <==>
               exists i :: s.first <= i <= s.last && i < |order| && order[i] == p && p < |labels| &&
                 labels[p].Unclassified?
    ensures open == set p | p in Members(order, sl) && labels[p].Unclassified?
  {
  }

  /** A slice without positive points and with no other unlabelled ones cannot become positive. */
  lemma NegativeCannotBecome(s: LabelScan, order: seq<nat>, labels: seq<Label>, hs: seq<Constraint>, sl: Slice)
    requires InBounds(sl, |order|) && Indices(order, |labels|) && ScanFaithful(s, order, labels, sl.left, sl.right + 1)
    requires !s.foundTrue && (s.foundFalse || !s.foundUnlabeled)
    ensures !CanBecome(labels, hs, Members(order, sl), true)
  {
    assert Contains(order, sl, order[sl.left]);
    var i :| sl.left <= i <= sl.right && labels[order[i]] == Classified(false);
    assert Contains(order, sl, order[i]);
  }

  // ---------- splits ----------

  predicate InRange(threshold: Option<nat>, cut: int) {
    threshold.Some? ==> -(threshold.value as int) <= cut <= threshold.value
  }

  /** A cut at a value of the slice, within the bound, that leaves points on both sides. */
  ghost predicate LegalCut(t: Task, order: seq<nat>, sl: Slice, threshold: Option<nat>, a: nat, cut: int) {
    && CutSeparates(t, order, sl, a, cut) && InRange(threshold, cut)
    && exists p: nat :: Contains(order, sl, p) && IntOf(t.data, a, p) == cut
  }

  /** No data value of the attribute is a legal cut. */
  ghost predicate NoLegalCut(t: Task, order: seq<nat>, sl: Slice, threshold: Option<nat>, a: nat) {
    forall p, q: nat :: Contains(order, sl, p) && Contains(order, sl, q) && InRange(threshold, IntOf(t.data, a, p)) ==>
      IntOf(t.data, a, q) <= IntOf(t.data, a, p)
  }

  ghost predicate LegalJob(t: Task, order: seq<nat>, sl: Slice, threshold: Option<nat>, job: Job) {
    match job
    case IntSplit(a, cut) => LegalCut(t, order, sl, threshold, a, cut)
    case CategoricalSplit(a) => a < |t.meta.numberOfCategories| && !OneCategory(t, order, sl, a)
    case LeafCreation(_, _, _) => false
  }

  /** Membership in the slice, and hence all of the above, does not depend on the order within it. */
  lemma SameMembers(a: seq<nat>, b: seq<nat>, sl: Slice)
    requires Permuted(a, b, sl.left, sl.right)
    ensures forall p :: Contains(a, sl, p) <==> Contains(b, sl, p)
  {
    var whole := Slice(sl.left, sl.right, 0);
    assert forall p :: Contains(a, sl, p) <==> Contains(a, whole, p);
    assert forall p :: Contains(b, sl, p) <==> Contains(b, whole, p);
  }

  /** What the scan knows after it has passed position `cur` without finding a legal cut. */
  ghost predicate NoCutBefore(order: seq<nat>, left: nat, cur: nat, threshold: Option<nat>, key: nat -> int)
    requires cur < |order|
  {
    forall i :: left <= i < cur ==> !InRange(threshold, key(order[i])) || key(order[i]) == key(order[cur])
  }

  lemma ScanFoundNone(t: Task, order: seq<nat>, sl: Slice, threshold: Option<nat>, a: nat)
    requires InBounds(sl, |order|) && SortedBy(order, sl.left, sl.right, IntKey(t.data, a))
    requires NoCutBefore(order, sl.left, sl.right, threshold, IntKey(t.data, a))
    ensures NoLegalCut(t, order, sl, threshold, a)
  {
    var key := IntKey(t.data, a);
    forall p, q: nat | Contains(order, sl, p) && Contains(order, sl, q) && InRange(threshold, key(p))
      ensures key(q) <= key(p)
    {
      var i :| sl.left <= i <= sl.right && order[i] == p;
      var j :| sl.left <= j <= sl.right && order[j] == q;
      assert key(order[j]) <= key(order[sl.right]);
    }
  }

  lemma ScanFoundCut(t: Task, order: seq<nat>, sl: Slice, threshold: Option<nat>, a: nat, cur: nat)
    requires InBounds(sl, |order|) && sl.left <= cur < sl.right && a < t.meta.intAttributes
    requires IntOf(t.data, a, order[cur]) < IntOf(t.data, a, order[cur + 1]) &&
               InRange(threshold, IntOf(t.data, a, order[cur]))
    ensures LegalCut(t, order, sl, threshold, a, IntOf(t.data, a, order[cur]))
  {
    assert Contains(order, sl, order[cur]) && Contains(order, sl, order[cur + 1]);
  }

  /** The outcome of asking for the next job. */
  datatype NextJob = Next(slice: Slice, job: Job) | SplitNotPossible | NotOneCategorical

  ghost predicate DistinctData(data: seq<Datum>) {
    forall p, q :: 0 <= p < q < |data| ==> data[p] != data[q]
  }

  /** No attribute splits the slice. */
  ghost predicate NoSplit(t: Task, order: seq<nat>, sl: Slice, threshold: Option<nat>) {
    && (forall a :: 0 <= a < |t.meta.numberOfCategories| ==> OneCategory(t, order, sl, a))
    && (forall a :: 0 <= a < t.meta.intAttributes ==> NoLegalCut(t, order, sl, threshold, a))
  }

  /** All points of the slice can be labelled alike, one way or the other. */
  ghost predicate CanBecomeLeaf(labels: seq<Label>, hs: seq<Constraint>, members: set<nat>) {
    CanBecome(labels, hs, members, true) || CanBecome(labels, hs, members, false)
  }

  /** The slice can neither become a leaf nor be split. */
  ghost predicate Stuck(t: Task, order: seq<nat>, sl: Slice, threshold: Option<nat>, labels: seq<Label>) {
    InBounds(sl, |order|) && NoSplit(t, order, sl, threshold) && !CanBecomeLeaf(labels, t.hs, Members(order, sl))
  }

  /** Without a bound, points that cannot be split have the same data. */
  lemma NoSplitSameData(t: Task, order: seq<nat>, sl: Slice, p: nat, q: nat)
    requires ValidTask(t) && NoSplit(t, order, sl, None)
    requires p < |t.data| && q < |t.data| && Contains(order, sl, p) && Contains(order, sl, q)
    ensures t.data[p] == t.data[q]
  {
    assert ValidDatum(t.data[p], t.meta) && ValidDatum(t.data[q], t.meta);
    forall a | 0 <= a < |t.meta.numberOfCategories| ensures t.data[p].categories[a] == t.data[q].categories[a] {
      assert CategoryOf(t.data, a, p) == CategoryOf(t.data, a, q) by { assert OneCategory(t, order, sl, a); }
    }
    forall a | 0 <= a < t.meta.intAttributes ensures t.data[p].ints[a] == t.data[q].ints[a] {
      assert NoLegalCut(t, order, sl, None, a);
      assert IntOf(t.data, a, p) <= IntOf(t.data, a, q) <= IntOf(t.data, a, p);
    }
    assert t.data[p].categories == t.data[q].categories && t.data[p].ints == t.data[q].ints;
  }

  /** Unbounded and on distinct data, a slice that cannot become a leaf can be split. */
  lemma LeafOrSplit(t: Task, order: seq<nat>, sl: Slice, labels: seq<Label>)
    requires ValidTask(t) && DistinctData(t.data) && |labels| == |t.data| && Closed(labels, t.hs)
    requires InBounds(sl, |order|) && Indices(order, |t.data|)
    ensures !Stuck(t, order, sl, None, labels)
  {
    if Stuck(t, order, sl, None, labels) {
      var p := order[sl.left];
      assert Contains(order, sl, p);
      forall q | q in Members(order, sl) ensures q == p {
        NoSplitSameData(t, order, sl, p, q);
      }
      assert Members(order, sl) == {p};
      SingletonCanBecome(labels, t.hs, p);
    }
  }

  /** The score that variables for the best split start with. */
  const LEAST_SCORE := -1000000

  class Manager {
    const t: Task
    const order: array<nat>
    const points: Sample
    const solver: Solver
    const threshold: Option<nat>
    var slices: seq<Slice>
    var isFirstSplit: bool
    var fractions: map<nat, real>

    constructor (t: Task, order: array<nat>, points: Sample, solver: Solver, threshold: Option<nat>)
      ensures this.t == t && this.order == order && this.points == points && this.solver == solver
      ensures this.threshold == threshold && slices == [] && isFirstSplit
    {
      this.t, this.order, this.points, this.solver, this.threshold := t, order, points, solver, threshold;
      slices, isFirstSplit, fractions := [], true, map[];
    }

    ghost predicate Ready()
      reads this, order, points
    {
      ValidTask(t) && |points.labels| == |t.data| && Indices(order[..], |t.data|) && Closed(points.labels, t.hs)
    }

    method ScanLabels(sl: Slice) returns (s: LabelScan)
      requires Ready() && InBounds(sl, order.Length)
      ensures if s.foundTrue && s.foundFalse then Mixed(points.labels, order[..], sl)
              else ScanFaithful(s, order[..], points.labels, sl.left, sl.right + 1)
    {
      hide Closed, ValidTask;
      s := LabelScan(false, false, false, 0, 0);
      var i := sl.left;
      while i <= sl.right
        invariant sl.left <= i <= sl.right + 1
        invariant ScanFaithful(s, order[..], points.labels, sl.left, i)
        invariant !(s.foundTrue && s.foundFalse)
      {
        ScanStepFaithful(s, order[..], points.labels, sl.left, i);
        s := ScanStep(s, points.labels[order[i]], i);
        i := i + 1;
        if s.foundTrue && s.foundFalse {
          break;
        }
      }
    }

    /** The unclassified points at the given positions. */
    method CollectUnlabeled(first: nat, last: nat) returns (open: set<nat>)
      requires Ready() && first <= last < order.Length
      ensures forall p :: p in open <==>
                exists i :: first <= i <= last && order[i] == p && points.labels[p].Unclassified?
    {
      open := {};
      var i := first;
      while i <= last
        invariant first <= i <= last + 1
        invariant forall p :: p in open <==>
                    exists j :: first <= j < i && order[j] == p && points.labels[p].Unclassified?
      {
        if points.labels[order[i]].Unclassified? {
          open := open + {order[i]};
        }
        i := i + 1;
      }
    }

    /** Asks the solver whether the unclassified members of a slice can all be given one label. */
    method TryLabel(sl: Slice, open: set<nat>, value: bool, negative: set<nat>)
      returns (ok: bool, pos: set<nat>, neg: set<nat>)
      requires Ready() && InBounds(sl, order.Length) && negative == {}
      requires forall p :: p in Members(order[..], sl) ==> p < |points.labels| && points.labels[p] != Classified(!value)
      requires open == set p | p in Members(order[..], sl) && points.labels[p].Unclassified?
      modifies solver, points
      ensures points.labels == old(points.labels)
      ensures ok <==> CanBecome(points.labels, t.hs, Members(order[..], sl), value)
      ensures ok ==> LeafLabels(points.labels, t.hs, Members(order[..], sl), value, pos, neg)
      ensures !ok ==> neg == if value then {} else open
    {
      var positive := if value then open else {};
      var negative' := if value then negative else negative + open;
      assert negative' == if value then {} else open;
      LabelMembers(points.labels, Members(order[..], sl), open, value);
      ok, pos, neg := solver.Solve(points, t.hs, positive, negative');
      if ok {
        SolvedLeaf(points.labels, t.hs, Members(order[..], sl), open, value, pos, neg);
      }
    }

    /**
     Can the slice be turned into a leaf?  If so, which label does the leaf get, and which points have
     to be labelled?  The answer is yes exactly if all members can get the same label.
     */
    method IsLeaf(sl: Slice) returns (leaf: bool, value: bool, pos: set<nat>, neg: set<nat>)
      requires Ready() && InBounds(sl, order.Length)
      modifies solver, points
      ensures points.labels == old(points.labels)
      ensures leaf <==> CanBecome(points.labels, t.hs, Members(order[..], sl), true) ||
                        CanBecome(points.labels, t.hs, Members(order[..], sl), false)
      ensures leaf ==> LeafLabels(points.labels, t.hs, Members(order[..], sl), value, pos, neg)
      ensures leaf ==> (value <==> CanBecome(points.labels, t.hs, Members(order[..], sl), true))
    {
      leaf, value, pos, neg := false, false, {}, {};
      var s := ScanLabels(sl);
      if s.foundTrue && s.foundFalse {
        MixedCannotBecome(points.labels, t.hs, order[..], sl);
      } else {
        ScanMembers(s, order[..], points.labels, sl);
        if !s.foundTrue && (s.foundFalse || !s.foundUnlabeled) {
          NegativeCannotBecome(s, order[..], points.labels, t.hs, sl);
        }
        if !s.foundUnlabeled {
          leaf, value := true, s.foundTrue;
          LabelledCanBecome(points.labels, t.hs, Members(order[..], sl), value);
        } else if s.foundTrue || s.foundFalse {
          // some points carry one label already: try to give that label to the others
          var open := CollectUnlabeled(s.first, s.last);
          OpenMembers(s, order[..], points.labels, sl, open);
          value := s.foundTrue;
          leaf, pos, neg := TryLabel(sl, open, value, {});
        } else {
          var open := CollectUnlabeled(sl.left, sl.right);
          leaf, pos, neg := TryLabel(sl, open, true, {});
          value := true;
          if !leaf {
            // the failed call has not touched the negative points, which is why they are not cleared
            leaf, pos, neg := TryLabel(sl, open, false, neg);
            value := false;
          }
        }
      }
    }

    // ---------- choosing a split ----------

    /** Any score above the least one: entropies, gain ratios and penalties are not modelled. */
    method Score() returns (score: int)
      ensures score > LEAST_SCORE
    {
      score :| score > LEAST_SCORE;
    }

    /** Can the slice be split on this categorical attribute?  The scan leaves it sorted by category. */
    method TryCategories(sl: Slice, a: nat) returns (possible: bool)
      requires Ready() && InBounds(sl, order.Length)
      modifies order
      ensures Permuted(old(order[..]), order[..], sl.left, sl.right)
      ensures possible <==> !OneCategory(t, order[..], sl, a)
    {
      SortSlice(order, sl.left, sl.right, CategoryKey(t.data, a));
      var right := EndOfRun(t, order, sl.left, sl.right, a);
      possible := right < sl.right;
      if possible {
        assert Contains(order[..], sl, order[..][sl.left]) && Contains(order[..], sl, order[..][right + 1]);
      } else {
        forall p: nat | Contains(order[..], sl, p)
          ensures CategoryOf(t.data, a, p) == CategoryOf(t.data, a, order[sl.left])
        {
          var i :| sl.left <= i <= sl.right && order[..][i] == p;
        }
      }
    }

    /** Sorts the slice by an integer attribute and finds its best cut. */
    method TryCuts(sl: Slice, a: nat) returns (possible: bool, cut: int)
      requires Ready() && InBounds(sl, order.Length) && a < t.meta.intAttributes
      modifies order
      ensures Permuted(old(order[..]), order[..], sl.left, sl.right)
      ensures if possible then LegalCut(t, order[..], sl, threshold, a, cut)
                else NoLegalCut(t, order[..], sl, threshold, a)
    {
      SortSlice(order, sl.left, sl.right, IntKey(t.data, a));
      possible, cut := ScanCuts(sl, a);
    }

    /** Visits the last position of every run of one value, and keeps the legal cut of least entropy. */
    method ScanCuts(sl: Slice, a: nat) returns (possible: bool, cut: int)
      requires InBounds(sl, order.Length) && a < t.meta.intAttributes
      requires SortedBy(order[..], sl.left, sl.right, IntKey(t.data, a))
      ensures if possible then LegalCut(t, order[..], sl, threshold, a, cut)
                else NoLegalCut(t, order[..], sl, threshold, a)
    {
      hide LegalCut, NoLegalCut;
      ghost var key := IntKey(t.data, a);
      possible, cut := false, 0;
      var bestEntropy := 0;
      var cur := sl.left;
      while cur < sl.right
        invariant sl.left <= cur <= sl.right
        invariant if possible then LegalCut(t, order[..], sl, threshold, a, cut)
                  else NoCutBefore(order[..], sl.left, cur, threshold, key)
      {
        cur := SkipRun(sl, a, cur);
        if cur < sl.right {
          assert key(order[..][cur]) <= key(order[..][cur + 1]);
          var value := IntOf(t.data, a, order[cur]);
          if InRange(threshold, value) {
            ScanFoundCut(t, order[..], sl, threshold, a, cur);
            var entropy := Score();
            if !possible || entropy < bestEntropy {
              possible, bestEntropy, cut := true, entropy, value;
            }
          }
          cur := cur + 1;
        }
      }
      if !possible {
        ScanFoundNone(t, order[..], sl, threshold, a);
      }
    }

    /** Moves to the last position of the run of equal values that starts at `from`. */
    method SkipRun(sl: Slice, a: nat, from: nat) returns (cur: nat)
      requires InBounds(sl, order.Length) && sl.left <= from <= sl.right
      ensures from <= cur <= sl.right
      ensures forall i :: from <= i <= cur ==> IntOf(t.data, a, order[i]) == IntOf(t.data, a, order[from])
      ensures cur < sl.right ==> IntOf(t.data, a, order[cur + 1]) != IntOf(t.data, a, order[cur])
    {
      cur := from;
      while cur + 1 <= sl.right && IntOf(t.data, a, order[cur + 1]) == IntOf(t.data, a, order[cur])
        invariant from <= cur <= sl.right
        invariant forall i :: from <= i <= cur ==> IntOf(t.data, a, order[i]) == IntOf(t.data, a, order[from])
      {
        cur := cur + 1;
      }
    }

    method BestCategory(sl: Slice) returns (possible: bool, best: nat, gain: int)
      requires Ready() && InBounds(sl, order.Length)
      modifies order
      ensures Permuted(old(order[..]), order[..], sl.left, sl.right)
      ensures if possible then LegalJob(t, old(order[..]), sl, threshold, CategoricalSplit(best))
              else forall a :: 0 <= a < |t.meta.numberOfCategories| ==> OneCategory(t, old(order[..]), sl, a)
    {
      ghost var before := order[..];
      possible, best, gain := false, 0, 0;
      var a := 0;
      while a < |t.meta.numberOfCategories|
        invariant 0 <= a <= |t.meta.numberOfCategories|
        invariant Permuted(before, order[..], sl.left, sl.right) && Indices(order[..], |t.data|)
        invariant if possible then best < |t.meta.numberOfCategories| && !OneCategory(t, before, sl, best)
                  else forall b :: 0 <= b < a ==> OneCategory(t, before, sl, b)
      {
        var splits := TryCategories(sl, a);
        RearrangedIndices(before, order[..], Slice(sl.left, sl.right, 0), |t.data|);
        SameMembers(before, order[..], sl);
        assert OneCategory(t, before, sl, a) <==> OneCategory(t, order[..], sl, a);
        if splits {
          var ratio := Score();
          if !possible || ratio > gain {
            possible, gain, best := true, ratio, a;
          }
        }
        a := a + 1;
      }
    }

    /**
     The best integer split.  Attributes whose split has no intrinsic value are tracked apart, and count
     only as long as none with an intrinsic value has been seen.
     */
    method BestCut(sl: Slice) returns (possible: bool, best: nat, cut: int, gain: int)
      requires Ready() && InBounds(sl, order.Length)
      modifies order
      ensures Permuted(old(order[..]), order[..], sl.left, sl.right)
      ensures if possible then LegalJob(t, old(order[..]), sl, threshold, IntSplit(best, cut))
              else forall a :: 0 <= a < t.meta.intAttributes ==> NoLegalCut(t, old(order[..]), sl, threshold, a)
    {
      hide LegalCut, NoLegalCut, Closed, ValidTask;
      ghost var before := order[..];
      possible, best, cut, gain := false, 0, 0, LEAST_SCORE;
      var intrinsicPossible := false;
      var zeroBest: nat, zeroCut, zeroGain := 0, 0, LEAST_SCORE;
      var a := 0;
      while a < t.meta.intAttributes
        invariant 0 <= a <= t.meta.intAttributes
        invariant Permuted(before, order[..], sl.left, sl.right) && Indices(order[..], |t.data|)
        invariant intrinsicPossible ==> possible && LegalCut(t, before, sl, threshold, best, cut)
        invariant possible && !intrinsicPossible ==> LegalCut(t, before, sl, threshold, zeroBest, zeroCut)
        invariant !intrinsicPossible ==> gain == LEAST_SCORE
        invariant !possible ==> forall b :: 0 <= b < a ==> NoLegalCut(t, before, sl, threshold, b)
      {
        var splits, value := TryCuts(sl, a);
        RearrangedIndices(before, order[..], Slice(sl.left, sl.right, 0), |t.data|);
        CutsStayLegal(t, before, order[..], sl, threshold, a, value);
        if splits {
          var ratio := Score();
          var hasIntrinsicValue: bool := *;
          if hasIntrinsicValue {
            intrinsicPossible := true;
            if !possible || ratio > gain || (ratio == gain && Abs(value) < Abs(cut)) {
              possible, gain, best, cut := true, ratio, a, value;
            }
          } else if !intrinsicPossible {
            if !possible || ratio > zeroGain || (ratio == zeroGain && Abs(value) < Abs(zeroCut)) {
              possible, zeroGain, zeroBest, zeroCut := true, ratio, a, value;
            }
          }
        }
        a := a + 1;
      }
      if possible && !intrinsicPossible {
        best, cut, gain := zeroBest, zeroCut, zeroGain;
      }
    }

    /**
     The best split of a slice, which is only asked for if some point of it is labelled positive.  There
     is none exactly if no attribute splits the slice.
     */
    method FindBestSplit(sl: Slice) returns (job: Option<Job>)
      requires Ready() && InBounds(sl, order.Length)
      requires exists p :: p in Members(order[..], sl) && points.labels[p] == Classified(true)
      modifies order
      ensures Permuted(old(order[..]), order[..], sl.left, sl.right)
      ensures match job
              case Some(j) => LegalJob(t, order[..], sl, threshold, j)
              case None => NoSplit(t, order[..], sl, threshold)
    {
      ghost var before := order[..];
      var category, bestCategory, categoryGain := BestCategory(sl);
      ghost var between := order[..];
      RearrangedIndices(before, between, Slice(sl.left, sl.right, 0), |t.data|);
      var int_, bestInt, cut, intGain := BestCut(sl);
      JobsStayLegal(t, before, between, sl, threshold);
      JobsStayLegal(t, between, order[..], sl, threshold);
      if !int_ && !category {
        job := None;
      } else if int_ && (!category || intGain <= categoryGain) {
        job := Some(IntSplit(bestInt, cut));
      } else {
        job := Some(CategoricalSplit(bestCategory));
      }
    }

    /** Takes any slice off the list: node selection is not modelled.  The first split takes the front. */
    method TakeSlice() returns (sl: Slice, ghost k: nat)
      requires slices != []
      modifies this`slices
      ensures k < |old(slices)| && sl == old(slices)[k] && slices == old(slices)[..k] + old(slices)[k + 1..]
      ensures isFirstSplit ==> k == 0
    {
      var index: nat :| index < |slices| && (isFirstSplit ==> index == 0);
      k := index;
      sl := slices[index];
      slices := slices[..index] + slices[index + 1..];
    }

    /** What the learner can rely on when it is handed a job. */
    ghost predicate Executable(before: seq<nat>, sl: Slice, job: Job, first: bool)
      requires InBounds(sl, order.Length)
      reads this, order, points
    {
      && Permuted(before, order[..], sl.left, sl.right)
      && match job
         case LeafCreation(v, pos, neg) =>
           LeafLabels(points.labels, t.hs, Members(order[..], sl), v, pos, neg) && !first
         case CategoricalSplit(a) =>
           if first then a == 0 && |t.meta.numberOfCategories| == 1 else LegalJob(t, order[..], sl, threshold, job)
         case IntSplit(_, _) => LegalJob(t, order[..], sl, threshold, job) && !first
    }

    /** The job creates a leaf exactly if the slice can become one, and a positive one if that is possible. */
    ghost predicate LeafIfPossible(before: seq<nat>, sl: Slice, job: Job)
      requires InBounds(sl, |before|)
      reads points
    {
      && (job.LeafCreation? <==> CanBecomeLeaf(points.labels, t.hs, Members(before, sl)))
      && (job.LeafCreation? ==> (job.value <==> CanBecome(points.labels, t.hs, Members(before, sl), true)))
    }

    /**
     The next job: the first one splits on the unique categorical attribute; later ones create a leaf
     if possible and split otherwise.  There is no next job exactly if the slice taken is stuck.
     */
    method GetNextJob() returns (r: NextJob, ghost k: nat)
      requires Ready() && slices != [] && forall j :: 0 <= j < |slices| ==> InBounds(slices[j], order.Length)
      modifies this, order, solver, points
      ensures points.labels == old(points.labels) && !isFirstSplit
      ensures multiset(order[..]) == multiset(old(order[..]))
      ensures k < |old(slices)| && slices == old(slices)[..k] + old(slices)[k + 1..]
      ensures old(isFirstSplit) ==> k == 0
      ensures match r
              case Next(sl, job) =>
                && sl == old(slices)[k] && Executable(old(order[..]), sl, job, old(isFirstSplit))
                && (!old(isFirstSplit) ==> LeafIfPossible(old(order[..]), sl, job))
              case NotOneCategorical => old(isFirstSplit) && |t.meta.numberOfCategories| != 1
              case SplitNotPossible =>
                !old(isFirstSplit) && Stuck(t, old(order[..]), old(slices)[k], threshold, points.labels)
      ensures old(isFirstSplit) ||
                (r.SplitNotPossible? <==> Stuck(t, old(order[..]), old(slices)[k], threshold, points.labels))
    {
      var first := isFirstSplit;
      var sl;
      sl, k := TakeSlice();
      if first {
        isFirstSplit := false;
        r := if |t.meta.numberOfCategories| != 1 then NotOneCategorical else Next(sl, CategoricalSplit(0));
      } else {
        r := DecideJob(sl);
      }
    }

    method DecideJob(sl: Slice) returns (r: NextJob)
      requires Ready() && InBounds(sl, order.Length)
      modifies this`fractions, order, solver, points
      ensures points.labels == old(points.labels)
      ensures multiset(order[..]) == multiset(old(order[..]))
      ensures match r
              case Next(s, job) =>
                s == sl && Executable(old(order[..]), sl, job, false) && LeafIfPossible(old(order[..]), sl, job)
              case NotOneCategorical => false
              case SplitNotPossible => true
      ensures r.SplitNotPossible? <==> Stuck(t, old(order[..]), sl, threshold, points.labels)
    {
      if * {
        fractions := EstimateFractions(points, solver, t.hs);
      }
      var leaf, value, pos, neg := IsLeaf(sl);
      if leaf {
        r := Next(sl, LeafCreation(value, pos, neg));
      } else {
        if * {
          fractions := EstimateFractions(points, solver, t.hs);
        }
        UnsplittableHasPositive(points.labels, t.hs, order[..], sl);
        ghost var before := order[..];
        var job := FindBestSplit(sl);
        r := if job.Some? then Next(sl, job.value) else SplitNotPossible;
        NoSplitStays(t, before, order[..], sl, threshold);
      }
    }
  }

  /** Permuting a slice does not make it splittable, nor the other way round. */
  lemma NoSplitStays(t: Task, a: seq<nat>, b: seq<nat>, sl: Slice, threshold: Option<nat>)
    requires Permuted(a, b, sl.left, sl.right)
    ensures NoSplit(t, a, sl, threshold) <==> NoSplit(t, b, sl, threshold)
    ensures (exists j :: LegalJob(t, b, sl, threshold, j)) ==> !NoSplit(t, b, sl, threshold)
  {
    SameMembers(a, b, sl);
    assert forall c :: OneCategory(t, a, sl, c) <==> OneCategory(t, b, sl, c);
    assert forall c :: NoLegalCut(t, a, sl, threshold, c) <==> NoLegalCut(t, b, sl, threshold, c);
    forall j | LegalJob(t, b, sl, threshold, j) ensures !NoSplit(t, b, sl, threshold) {
      match j
      case IntSplit(c, _) => assert !NoLegalCut(t, b, sl, threshold, c);
      case CategoricalSplit(c) => assert !OneCategory(t, b, sl, c);
    }
  }

  /** A slice that cannot become a leaf has a positive point. */
  lemma UnsplittableHasPositive(labels: seq<Label>, hs: seq<Constraint>, order: seq<nat>, sl: Slice)
    requires InBounds(sl, |order|) && Indices(order, |labels|) && Closed(labels, hs)
    requires !CanBecome(labels, hs, Members(order, sl), false)
    ensures exists p :: p in Members(order, sl) && labels[p] == Classified(true)
  {
    if forall p :: p in Members(order, sl) ==> labels[p] != Classified(true) {
      NoPositiveCanBecome(labels, hs, Members(order, sl));
    }
  }

  function Abs(x: int): int {
    if x < 0 then -x else x
  }

  lemma CutsStayLegal(t: Task, a: seq<nat>, b: seq<nat>, sl: Slice, threshold: Option<nat>, attribute: nat, cut: int)
    requires Permuted(a, b, sl.left, sl.right)
    ensures LegalCut(t, a, sl, threshold, attribute, cut) <==> LegalCut(t, b, sl, threshold, attribute, cut)
    ensures NoLegalCut(t, a, sl, threshold, attribute) <==> NoLegalCut(t, b, sl, threshold, attribute)
  {
    SameMembers(a, b, sl);
  }

  lemma JobsStayLegal(t: Task, a: seq<nat>, b: seq<nat>, sl: Slice, threshold: Option<nat>)
    requires Permuted(a, b, sl.left, sl.right)
    ensures forall j :: LegalJob(t, a, sl, threshold, j) ==> LegalJob(t, b, sl, threshold, j)
    ensures forall c :: OneCategory(t, a, sl, c) ==> OneCategory(t, b, sl, c)
    ensures forall c :: NoLegalCut(t, a, sl, threshold, c) ==> NoLegalCut(t, b, sl, threshold, c)
  {
    SameMembers(a, b, sl);
    forall j | LegalJob(t, a, sl, threshold, j) ensures LegalJob(t, b, sl, threshold, j) {
      match j
      case IntSplit(c, cut) =>
      case CategoricalSplit(c) => assert OneCategory(t, a, sl, c) <==> OneCategory(t, b, sl, c);
    }
  }
}
