/**
 Slices that cannot be split, and why learning fails on them.
 */
module Unsplittable {
  import opened Horn
  import opened Tree
  import opened Slices
  import opened Jobs
  import opened JobManager
  import opened Bounds

  /** The attribute has a value below the least cut of the bound and one above it. */
  ghost predicate Straddles(data: seq<Datum>, a: nat, p: nat, q: nat, bound: nat) {
    IntOf(data, a, p) < -(bound as int) < IntOf(data, a, q)
  }

  ghost predicate SliceStraddles(t: Task, order: seq<nat>, sl: Slice, bound: nat) {
    exists a, p: nat, q: nat :: 0 <= a < t.meta.intAttributes && Contains(order, sl, p) && Contains(order, sl, q) &&
                                Straddles(t.data, a, p, q, bound)
  }

  ghost predicate SliceSeparable(t: Task, order: seq<nat>, sl: Slice, bound: nat)
    requires ValidTask(t) && Indices(order, |t.data|)
  {
    exists p: nat, q: nat :: p < |t.data| && q < |t.data| && Contains(order, sl, p) && Contains(order, sl, q) &&
                             ValidDatum(t.data[p], t.meta) && ValidDatum(t.data[q], t.meta) &&
                             Separable(t.data[p], t.data[q], bound)
  }

  /**
   When a bounded split fails although the bound can tell two points of the slice apart: exactly if some
   attribute has a value below the least cut and another one above it.
   */
  lemma NoSplitSeparable(t: Task, order: seq<nat>, sl: Slice, bound: nat)
    requires ValidTask(t) && Indices(order, |t.data|) && InBounds(sl, |order|) && NoSplit(t, order, sl, Some(bound))
    ensures SliceSeparable(t, order, sl, bound) <==> SliceStraddles(t, order, sl, bound)
  {
    if SliceSeparable(t, order, sl, bound) {
      var p: nat, q: nat :| p < |t.data| && q < |t.data| && Contains(order, sl, p) && Contains(order, sl, q) &&
                            Separable(t.data[p], t.data[q], bound);
      PairSeparable(t, order, sl, bound, p, q);
    }
    if SliceStraddles(t, order, sl, bound) {
      var a, p: nat, q: nat :| 0 <= a < t.meta.intAttributes && Contains(order, sl, p) && Contains(order, sl, q) &&
                               Straddles(t.data, a, p, q, bound);
      PairSeparable(t, order, sl, bound, p, q);
      assert PairStraddles(t, p, q, bound);
    }
  }

  /** No model tells two of the points apart. */
  ghost predicate TreatedAlike(labels: seq<Label>, hs: seq<Constraint>, members: set<nat>) {
    forall S, p, q :: Model(S, labels, hs) && p in members && q in members ==> (p in S <==> q in S)
  }

  /** Points that no model tells apart can become a leaf together. */
  lemma AlikeCanBecome(labels: seq<Label>, hs: seq<Constraint>, members: set<nat>)
    requires Closed(labels, hs) && (forall p :: p in members ==> p < |labels|) && TreatedAlike(labels, hs, members)
    ensures CanBecomeLeaf(labels, hs, members)
  {
    if p :| p in members && labels[p] == Classified(true) {
      ClosedLabelsAreForced(labels, hs, p);
      forall q | q in members ensures labels[q] == Classified(true) {
        ClosedLabelsAreForced(labels, hs, q);
      }
      LabelledCanBecome(labels, hs, members, true);
    } else {
      NoPositiveCanBecome(labels, hs, members);
    }
  }

  /** Some attribute of the data has a value below the least cut and one above it. */
  ghost predicate DataStraddle(data: seq<Datum>, meta: Metadata, bound: nat) {
    exists a, p, q :: 0 <= a < meta.intAttributes && 0 <= p < |data| && 0 <= q < |data| &&
      Straddles(data, a, p, q, bound)
  }

  /** Some attribute has a value below the least cut in one of the two points, and one above it in the other. */
  ghost predicate PairStraddles(t: Task, p: nat, q: nat, bound: nat) {
    exists a :: 0 <= a < t.meta.intAttributes &&
      (Straddles(t.data, a, p, q, bound) || Straddles(t.data, a, q, p, bound))
  }

  /** Two points of one slice that the bound can tell apart, although the slice cannot be split. */
  lemma PairSeparable(t: Task, order: seq<nat>, sl: Slice, bound: nat, p: nat, q: nat)
    requires ValidTask(t) && InBounds(sl, |order|) && NoSplit(t, order, sl, Some(bound))
    requires p < |t.data| && q < |t.data| && Contains(order, sl, p) && Contains(order, sl, q)
    ensures ValidDatum(t.data[p], t.meta) && ValidDatum(t.data[q], t.meta)
    ensures t.data[p].categories == t.data[q].categories
    ensures Separable(t.data[p], t.data[q], bound) <==> PairStraddles(t, p, q, bound)
  {
    assert ValidDatum(t.data[p], t.meta) && ValidDatum(t.data[q], t.meta);
    forall c | 0 <= c < |t.meta.numberOfCategories| ensures t.data[p].categories[c] == t.data[q].categories[c] {
      assert OneCategory(t, order, sl, c);
      assert CategoryOf(t.data, c, p) == CategoryOf(t.data, c, q);
    }
    assert t.data[p].categories == t.data[q].categories;
    if Separable(t.data[p], t.data[q], bound) {
      var a, cut :| 0 <= a < |t.data[p].ints| && CutBetween(t.data[p].ints[a], t.data[q].ints[a], cut, bound);
      assert NoLegalCut(t, order, sl, Some(bound), a);
      var x, y := IntOf(t.data, a, p), IntOf(t.data, a, q);
      assert Straddles(t.data, a, p, q, bound) || Straddles(t.data, a, q, p, bound);
    }
    if a :| 0 <= a < t.meta.intAttributes && (Straddles(t.data, a, p, q, bound) || Straddles(t.data, a, q, p, bound)) {
      assert CutBetween(t.data[p].ints[a], t.data[q].ints[a], -(bound as int), bound);
    }
  }

  /** Some model makes the one point true and the other one false. */
  ghost predicate ToldApart(t: Task, labels: seq<Label>, p: nat, q: nat) {
    exists S :: Model(S, labels, t.hs) && p in S && q !in S
  }

  /**
   Why learning fails on two points of one category, one true and the other one false in some model.
   Without a bound their data are equal; with one, if it can tell them apart at all, they lie on both sides
   of the least cut.
   */
  ghost predicate FailsOn(t: Task, threshold: Option<nat>, labels: seq<Label>, p: nat, q: nat)
    requires ValidTask(t)
  {
    && p < |t.data| && q < |t.data| && ToldApart(t, labels, p, q)
    && ValidDatum(t.data[p], t.meta) && ValidDatum(t.data[q], t.meta) && t.data[p].categories == t.data[q].categories
    && match threshold
       case None => t.data[p] == t.data[q]
       case Some(bound) => Separable(t.data[p], t.data[q], bound) ==> PairStraddles(t, p, q, bound)
  }

  ghost predicate FailureExplained(t: Task, threshold: Option<nat>, labels: seq<Label>)
    requires ValidTask(t)
  {
    exists p: nat, q: nat :: FailsOn(t, threshold, labels, p, q)
  }

  /** A stuck slice has two such points. */
  lemma StuckExplained(t: Task, order: seq<nat>, sl: Slice, threshold: Option<nat>, labels: seq<Label>)
    requires ValidTask(t) && |labels| == |t.data| && Closed(labels, t.hs)
    requires Indices(order, |t.data|) && Stuck(t, order, sl, threshold, labels)
    ensures FailureExplained(t, threshold, labels)
  {
    var members := Members(order, sl);
    forall S, p, q | Model(S, labels, t.hs) && p in members && q in members && p in S && q !in S
      ensures FailureExplained(t, threshold, labels)
    {
      MembersFail(t, order, sl, threshold, labels, S, p, q);
    }
    if !FailureExplained(t, threshold, labels) {
      assert TreatedAlike(labels, t.hs, members);
      AlikeCanBecome(labels, t.hs, members);
    }
  }

  lemma MembersFail(t: Task, order: seq<nat>, sl: Slice, threshold: Option<nat>, labels: seq<Label>, S: set<nat>,
                    p: nat, q: nat)
    requires ValidTask(t) && InBounds(sl, |order|) && Indices(order, |t.data|) && NoSplit(t, order, sl, threshold)
    requires Model(S, labels, t.hs) && Contains(order, sl, p) && Contains(order, sl, q) && p in S && q !in S
    ensures FailsOn(t, threshold, labels, p, q)
  {
    assert ToldApart(t, labels, p, q);
    assert ValidDatum(t.data[p], t.meta) && ValidDatum(t.data[q], t.meta);
    match threshold
    case None => NoSplitSameData(t, order, sl, p, q);
    case Some(bound) => PairSeparable(t, order, sl, bound, p, q);
  }

  /** With fewer labels there are more models. */
  lemma FailureOfFewer(t: Task, threshold: Option<nat>, few: seq<Label>, many: seq<Label>)
    requires ValidTask(t) && Grows(few, many) && FailureExplained(t, threshold, many)
    ensures FailureExplained(t, threshold, few)
  {
    var p: nat, q: nat :| FailsOn(t, threshold, many, p, q);
    var S :| Model(S, many, t.hs) && p in S && q !in S;
    assert forall r: nat :: LabelOf(few, r).Classified? ==> LabelOf(many, r) == LabelOf(few, r);
    assert Model(S, few, t.hs);
    assert FailsOn(t, threshold, few, p, q);
  }

  /** Without a bound, learning fails on equal data points only. */
  lemma UnboundedFailure(t: Task, labels: seq<Label>)
    requires ValidTask(t) && FailureExplained(t, None, labels)
    ensures !DistinctData(t.data)
  {
    var p: nat, q: nat :| FailsOn(t, None, labels, p, q);
    assert p != q;
    if p < q { assert t.data[p] == t.data[q]; } else { assert t.data[q] == t.data[p]; }
  }

  /** Two points that a model of the original sample tells apart lie on both sides of the least cut. */
  ghost predicate StraddledApart(t: Task, labels: seq<Label>, bound: nat) {
    exists p: nat, q: nat :: p < |t.data| && q < |t.data| && ToldApart(t, labels, p, q) && PairStraddles(t, p, q, bound)
  }

  /** With constraints that equate what the bound cannot tell apart, learning fails on such points only. */
  lemma BoundedFailure(t: Task, u: Task, labels: seq<Label>, bound: nat, extra: seq<Constraint>)
    requires ValidTask(t) && ValidTask(u) && u == t.(hs := t.hs + extra) &&
               BoundConstraints(extra, t.data, t.meta, bound)
    requires FailureExplained(u, Some(bound), labels)
    ensures StraddledApart(t, labels, bound)
  {
    var p: nat, q: nat :| FailsOn(u, Some(bound), labels, p, q);
    var S :| Model(S, labels, u.hs) && p in S && q !in S;
    ModelOfMore(S, labels, t.hs, extra);
    assert ToldApart(t, labels, p, q);
    SeparableSymmetric(t.data[p], t.data[q], bound);
    assert Separable(t.data[p], t.data[q], bound);
  }

  lemma SeparableSymmetric(d: Datum, e: Datum, bound: nat)
    requires |d.categories| == |e.categories| && |d.ints| == |e.ints|
    ensures Separable(d, e, bound) <==> Separable(e, d, bound)
  {
    forall a, cut | 0 <= a < |d.ints|
      ensures CutBetween(d.ints[a], e.ints[a], cut, bound) <==> CutBetween(e.ints[a], d.ints[a], cut, bound) {}
  }

  /** In particular, some attribute of the data straddles the least cut. */
  lemma StraddledData(t: Task, labels: seq<Label>, bound: nat)
    requires StraddledApart(t, labels, bound)
    ensures DataStraddle(t.data, t.meta, bound)
  {
  }
}
