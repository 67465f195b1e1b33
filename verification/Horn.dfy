/**
 Horn samples: partially classified data points and Horn constraints over them.

 A data point is its index.  The Horn solver owns one more point, its false data point, used as the
 conclusion of constraints that have none; its index is the number of data points and it is
 always classified false.  A total labelling is the set of the points it makes true.
 */
module Horn {

  datatype Option<+T> = None | Some(value: T)

  datatype Label = Unclassified | Classified(value: bool)

  /** `premises ==> conclusion`; without a conclusion, the premises must not all be true. */
  datatype Constraint = Constraint(premises: seq<nat>, conclusion: Option<nat>)

  predicate WellFormed(h: Constraint, n: nat) {
    && (forall p :: p in h.premises ==> p < n)
    && (h.conclusion.Some? ==> h.conclusion.value < n)
  }

  predicate AllWellFormed(hs: seq<Constraint>, n: nat) {
    forall k :: 0 <= k < |hs| ==> WellFormed(hs[k], n)
  }

  /** The classification of a point; every index beyond the data points stands for the false one. */
  function LabelOf(labels: seq<Label>, p: nat): Label {
    if p < |labels| then labels[p] else Classified(false)
  }

  // ---------- models ----------

  ghost predicate Satisfies(S: set<nat>, h: Constraint) {
    (forall p :: p in h.premises ==> p in S) ==> h.conclusion.Some? && h.conclusion.value in S
  }

  /** `S` extends the classifications, and in particular contains data points only. */
  ghost predicate Agrees(S: set<nat>, labels: seq<Label>) {
    forall p: nat :: LabelOf(labels, p).Classified? ==> (p in S <==> LabelOf(labels, p).value)
  }

  ghost predicate Model(S: set<nat>, labels: seq<Label>, hs: seq<Constraint>) {
    && Agrees(S, labels)
    && forall k :: 0 <= k < |hs| ==> Satisfies(S, hs[k])
  }

  ghost predicate Satisfiable(labels: seq<Label>, hs: seq<Constraint>) {
    exists S :: Model(S, labels, hs)
  }

  /** The labelling that makes every unclassified point false. */
  function TrueSet(labels: seq<Label>): (S: set<nat>)
    ensures forall p: nat :: p in S <==> LabelOf(labels, p) == Classified(true)
  {
    set p | 0 <= p < |labels| && labels[p] == Classified(true)
  }

  /**
   What the learner keeps of its labels: making all unclassified points false satisfies the
   constraints, and so does, for every single unclassified point, some labelling that makes it true.
   */
  ghost predicate Closed(labels: seq<Label>, hs: seq<Constraint>) {
    && Model(TrueSet(labels), labels, hs)
    && forall m: nat :: m < |labels| && labels[m].Unclassified? ==> exists S :: Model(S, labels, hs) && m in S
  }

  // ---------- adding classifications ----------

  predicate Compatible(labels: seq<Label>, pos: set<nat>, neg: set<nat>) {
    && pos !! neg
    && (forall p :: p in pos ==> p < |labels| && labels[p] != Classified(false))
    && (forall p :: p in neg ==> p < |labels| && labels[p] != Classified(true))
  }

  function Apply(labels: seq<Label>, pos: set<nat>, neg: set<nat>): (r: seq<Label>)
    ensures |r| == |labels|
    ensures forall p :: 0 <= p < |labels| ==>
              r[p] == if p in pos then Classified(true) else if p in neg then Classified(false) else labels[p]
  {
    seq(|labels|, p requires 0 <= p < |labels| =>
      if p in pos then Classified(true) else if p in neg then Classified(false) else labels[p])
  }

  /** Every classification of `a` is one of `b`. */
  ghost predicate Grows(a: seq<Label>, b: seq<Label>) {
    && |a| == |b|
    && forall p :: 0 <= p < |a| && a[p].Classified? ==> b[p] == a[p]
  }

  lemma ApplyGrows(labels: seq<Label>, pos: set<nat>, neg: set<nat>)
    requires Compatible(labels, pos, neg)
    ensures Grows(labels, Apply(labels, pos, neg))
  {
  }

  /** The models of the enlarged labels are the models of the labels that decide the two sets as told. */
  lemma ApplyModels(S: set<nat>, labels: seq<Label>, pos: set<nat>, neg: set<nat>, hs: seq<Constraint>)
    requires Compatible(labels, pos, neg)
    ensures Model(S, Apply(labels, pos, neg), hs) <==> Model(S, labels, hs) && pos <= S && neg !! S
  {
    var r := Apply(labels, pos, neg);
    if Agrees(S, r) {
      forall p: nat | LabelOf(labels, p).Classified? ensures p in S <==> LabelOf(labels, p).value {
        assert LabelOf(r, p) == LabelOf(labels, p);
      }
      forall p | p in pos ensures p in S { assert LabelOf(r, p) == Classified(true); }
      forall p | p in neg ensures p !in S { assert LabelOf(r, p) == Classified(false); }
    }
    if Agrees(S, labels) && pos <= S && neg !! S {
      forall p: nat | LabelOf(r, p).Classified? ensures p in S <==> LabelOf(r, p).value {
        assert LabelOf(labels, p).Classified? ==> (p in S <==> LabelOf(labels, p).value);
      }
    }
  }

  /** Under closed labels a set of unclassified points can always be made false together. */
  lemma ClosedAllowsFalse(labels: seq<Label>, hs: seq<Constraint>, neg: set<nat>)
    requires Closed(labels, hs)
    requires forall p :: p in neg ==> p < |labels| && labels[p].Unclassified?
    ensures Satisfiable(Apply(labels, {}, neg), hs)
  {
    var S := TrueSet(labels);
    assert neg !! S by {
      forall p | p in neg ensures p !in S { assert LabelOf(labels, p) == Unclassified; }
    }
    ApplyModels(S, labels, {}, neg, hs);
  }

  /** Under closed labels every single unclassified point can be made true. */
  lemma ClosedAllowsTrue(labels: seq<Label>, hs: seq<Constraint>, m: nat)
    requires Closed(labels, hs) && m < |labels| && labels[m].Unclassified?
    ensures Satisfiable(Apply(labels, {m}, {}), hs)
  {
    var S :| Model(S, labels, hs) && m in S;
    ApplyModels(S, labels, {m}, {}, hs);
  }

  /**
   Closed labels are the consequences of the sample: a point is labelled true exactly if it is true in
   every model, labelled false exactly if it is false in every model, and there is a model.
   */
  lemma ClosedLabelsAreForced(labels: seq<Label>, hs: seq<Constraint>, p: nat)
    requires Closed(labels, hs) && p < |labels|
    ensures Satisfiable(labels, hs)
    ensures labels[p] == Classified(true) <==> forall S :: Model(S, labels, hs) ==> p in S
    ensures labels[p] == Classified(false) <==> forall S :: Model(S, labels, hs) ==> p !in S
  {
    var T := TrueSet(labels);
    assert LabelOf(labels, p) == labels[p];
    assert p in T <==> labels[p] == Classified(true);
    if labels[p].Unclassified? {
      var S :| Model(S, labels, hs) && p in S;
    }
  }

  /** Labels are added only where all models agree. */
  lemma AddedLabelsAreForced(labels: seq<Label>, pos0: set<nat>, neg0: set<nat>, pos: set<nat>, neg: set<nat>,
                             hs: seq<Constraint>)
    requires Compatible(labels, pos, neg)
    requires forall S :: Model(S, Apply(labels, pos0, neg0), hs) <==> Model(S, Apply(labels, pos, neg), hs)
    ensures forall S :: Model(S, Apply(labels, pos0, neg0), hs) ==> pos <= S && neg !! S
  {
    forall S | Model(S, Apply(labels, pos0, neg0), hs) ensures pos <= S && neg !! S {
      ApplyModels(S, labels, pos, neg, hs);
    }
  }

  /** Either decision about one more point leaves the sample satisfiable. */
  lemma EitherWay(labels: seq<Label>, pos: set<nat>, neg: set<nat>, hs: seq<Constraint>, m: nat)
    requires Compatible(labels, pos, neg) && Closed(Apply(labels, pos, neg), hs)
    requires m < |labels| && Apply(labels, pos, neg)[m].Unclassified?
    ensures Compatible(labels, pos + {m}, neg) && Satisfiable(Apply(labels, pos + {m}, neg), hs)
    ensures Compatible(labels, pos, neg + {m}) && Satisfiable(Apply(labels, pos, neg + {m}), hs)
  {
    var r := Apply(labels, pos, neg);
    ClosedAllowsTrue(r, hs, m);
    ClosedAllowsFalse(r, hs, {m});
    assert Apply(r, {m}, {}) == Apply(labels, pos + {m}, neg);
    assert Apply(r, {}, {m}) == Apply(labels, pos, neg + {m});
  }
}
