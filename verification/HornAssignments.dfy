/**
 Estimating how likely each data point is to be positive, from randomly completed Horn assignments.
 Random choices are arbitrary choices here.
 */
module HornAssignments {
  import opened Horn
  import opened HornSolver

  ghost predicate ListsUnclassified(list: seq<nat>, labels: seq<Label>) {
    forall p: nat :: p in list <==> p < |labels| && labels[p].Unclassified?
  }

  /** Removes the members of `s` from the list. */
  method RemoveAll(list: seq<nat>, s: set<nat>) returns (rest: seq<nat>)
    ensures forall p :: p in rest <==> p in list && p !in s
    ensures |rest| <= |list| && ((exists p :: p in list && p in s) ==> |rest| < |list|)
  {
    rest := [];
    var i := 0;
    while i < |list|
      invariant 0 <= i <= |list| && |rest| <= i
      invariant forall p :: p in rest <==> p in list[..i] && p !in s
      invariant (exists p :: p in list[..i] && p in s) ==> |rest| < i
    {
      if list[i] !in s {
        rest := rest + [list[i]];
      }
      assert list[..i + 1] == list[..i] + [list[i]];
      i := i + 1;
    }
  }

  /** Everything is decided, and deciding so satisfies the constraints. */
  ghost predicate Completes(labels: seq<Label>, hs: seq<Constraint>, pos: set<nat>, neg: set<nat>) {
    && Compatible(labels, pos, neg)
    && (forall p :: 0 <= p < |labels| ==> Apply(labels, pos, neg)[p].Classified?)
    && Model(TrueSet(Apply(labels, pos, neg)), labels, hs)
  }

  lemma DecidedCompletes(labels: seq<Label>, hs: seq<Constraint>, pos: set<nat>, neg: set<nat>)
    requires Compatible(labels, pos, neg) && Closed(Apply(labels, pos, neg), hs)
    requires ListsUnclassified([], Apply(labels, pos, neg))
    ensures Completes(labels, hs, pos, neg)
  {
    var r := Apply(labels, pos, neg);
    assert forall p :: 0 <= p < |r| && r[p].Unclassified? ==> p in [];
    ApplyModels(TrueSet(r), labels, pos, neg, hs);
  }

  /**
   Completes closed labels by deciding one point after the other, either way, and propagating: whatever
   is picked, the solver never reports a contradiction, and the result satisfies the constraints.
   */
  method CompleteAssignment(points: Sample, solver: Solver, hs: seq<Constraint>, unclassified: seq<nat>)
    returns (pos: set<nat>, neg: set<nat>)
    requires AllWellFormed(hs, |points.labels|) && Closed(points.labels, hs) &&
               ListsUnclassified(unclassified, points.labels)
    modifies points, solver
    ensures points.labels == old(points.labels)
    ensures Completes(points.labels, hs, pos, neg)
  {
    ghost var labels := points.labels;
    pos, neg := {}, {};
    var remaining := unclassified;
    assert Apply(labels, {}, {}) == labels;
    while remaining != []
      invariant points.labels == labels && Compatible(labels, pos, neg)
      invariant Closed(Apply(labels, pos, neg), hs)
      invariant ListsUnclassified(remaining, Apply(labels, pos, neg))
      decreases |remaining|
    {
      hide Closed;
      var k: nat :| k < |remaining|;
      var item, coin := remaining[k], *;
      assert item in remaining;
      EitherWay(labels, pos, neg, hs, item);
      if coin {
        pos := pos + {item};
      } else {
        neg := neg + {item};
      }
      var ok;
      ok, pos, neg := solver.Solve(points, hs, pos, neg);
      assert ok;
      ghost var before := remaining;
      remaining := RemoveAll(remaining, pos);
      remaining := RemoveAll(remaining, neg);
      assert item in before && item !in remaining;
    }
    DecidedCompletes(labels, hs, pos, neg);
  }

  // ---------- fractions ----------

  /** The number of models that make the point true. */
  ghost function Votes(models: seq<set<nat>>, p: nat): nat {
    if models == [] then 0 else Votes(models[..|models| - 1], p) + if p in models[|models| - 1] then 1 else 0
  }

  /** Every data point has the number of models that make it true. */
  ghost predicate Tallies(labels: seq<Label>, hs: seq<Constraint>, sum: map<nat, real>, models: seq<set<nat>>) {
    && (forall S :: S in models ==> Model(S, labels, hs))
    && (forall p: nat :: p in sum <==> p < |labels| && models != [])
    && forall p: nat :: p in sum ==> sum[p] == Votes(models, p) as real
  }

  /** The fractions are shares of three models of the sample. */
  ghost predicate Shares(labels: seq<Label>, hs: seq<Constraint>, frac: map<nat, real>) {
    exists models :: |models| == 3 && (forall S :: S in models ==> Model(S, labels, hs)) &&
      AreShares(labels, frac, models)
  }

  ghost predicate AreShares(labels: seq<Label>, frac: map<nat, real>, models: seq<set<nat>>) {
    (forall p: nat :: p in frac <==> p < |labels|) && forall p: nat :: p in frac ==>
      frac[p] == Votes(models, p) as real / 3.0
  }

  lemma {:induction false} VotesBounded(models: seq<set<nat>>, p: nat, labels: seq<Label>, hs: seq<Constraint>)
    requires forall S :: S in models ==> Model(S, labels, hs)
    ensures Votes(models, p) <= |models|
    ensures LabelOf(labels, p) == Classified(true) ==> Votes(models, p) == |models|
    ensures LabelOf(labels, p) == Classified(false) ==> Votes(models, p) == 0
  {
    if models != [] {
      VotesBounded(models[..|models| - 1], p, labels, hs);
      assert models[|models| - 1] in models;
    }
  }

  /** So every data point has one, between 0 and 1, and a labelled point has its label. */
  lemma SharesBounded(labels: seq<Label>, hs: seq<Constraint>, frac: map<nat, real>)
    requires Shares(labels, hs, frac)
    ensures forall p: nat :: p in frac <==> p < |labels|
    ensures forall p: nat :: p in frac ==> 0.0 <= frac[p] <= 1.0
    ensures forall p: nat :: p in frac && labels[p].Classified? ==> frac[p] == if labels[p].value then 1.0 else 0.0
  {
    var models :| |models| == 3 && (forall S :: S in models ==> Model(S, labels, hs)) &&
        AreShares(labels, frac, models);
    forall p: nat | p in frac
      ensures 0.0 <= frac[p] <= 1.0 && (labels[p].Classified? ==> frac[p] == if labels[p].value then 1.0 else 0.0)
    {
      VotesBounded(models, p, labels, hs);
    }
  }

  /** The fractions known from the labels alone. */
  method InitializeFractions(points: Sample) returns (frac: map<nat, real>)
    ensures forall p: nat :: p in frac <==> p < |points.labels| && points.labels[p].Classified?
    ensures forall p: nat :: p in frac ==> frac[p] == if points.labels[p].value then 1.0 else 0.0
  {
    frac := map[];
    var i := 0;
    while i < |points.labels|
      invariant 0 <= i <= |points.labels|
      invariant forall p: nat :: p in frac <==> p < i && points.labels[p].Classified?
      invariant forall p: nat :: p in frac ==> frac[p] == if points.labels[p].value then 1.0 else 0.0
    {
      if points.labels[i].Classified? {
        frac := frac[i := if points.labels[i].value then 1.0 else 0.0];
      }
      i := i + 1;
    }
  }

  function Overwrite(frac: map<nat, real>, pos: set<nat>, neg: set<nat>): map<nat, real> {
    map p | p in frac.Keys + pos + neg :: if p in neg then 0.0 else if p in pos then 1.0 else frac[p]
  }

  function AddFractions(sum: map<nat, real>, frac: map<nat, real>): map<nat, real> {
    map p | p in sum.Keys + frac.Keys :: (if p in sum then sum[p] else 0.0) + (if p in frac then frac[p] else 0.0)
  }

  /**
   Averages three completions.  Every data point gets a fraction, so the entropy computation finds each of
   them in the map.
   */
  method EstimateFractions(points: Sample, solver: Solver, hs: seq<Constraint>) returns (frac: map<nat, real>)
    requires AllWellFormed(hs, |points.labels|) && Closed(points.labels, hs)
    modifies points, solver
    ensures points.labels == old(points.labels)
    ensures Shares(points.labels, hs, frac)
  {
    var known := InitializeFractions(points);
    var unclassified := ListUnclassified(points);
    var sum: map<nat, real> := map[];
    ghost var models: seq<set<nat>> := [];
    var i := 0;
    while i < 3
      invariant 0 <= i <= 3 && points.labels == old(points.labels)
      invariant |models| == i && Tallies(points.labels, hs, sum, models)
    {
      var pos, neg := CompleteAssignment(points, solver, hs, unclassified);
      var completed := Overwrite(known, pos, neg);
      ghost var S := TrueSet(Apply(points.labels, pos, neg));
      CompletedFractions(points.labels, hs, known, pos, neg);
      AddedFractions(points.labels, hs, sum, models, completed, S);
      models := models + [S];
      sum := AddFractions(sum, completed);
      i := i + 1;
    }
    frac := map p | p in sum :: sum[p] / 3.0;
    assert AreShares(points.labels, frac, models);
  }

  method ListUnclassified(points: Sample) returns (list: seq<nat>)
    ensures ListsUnclassified(list, points.labels)
  {
    list := [];
    var i := 0;
    while i < |points.labels|
      invariant 0 <= i <= |points.labels|
      invariant forall p: nat :: p in list <==> p < i && points.labels[p].Unclassified?
    {
      if points.labels[i].Unclassified? {
        list := list + [i];
      }
      i := i + 1;
    }
  }

  /** A completed assignment gives the points it makes true the fraction 1, and the others 0. */
  lemma CompletedFractions(labels: seq<Label>, hs: seq<Constraint>, known: map<nat, real>, pos: set<nat>, neg: set<nat>)
    requires Completes(labels, hs, pos, neg)
    requires forall p: nat :: p in known <==> p < |labels| && labels[p].Classified?
    requires forall p: nat :: p in known ==> known[p] == if labels[p].value then 1.0 else 0.0
    ensures var S := TrueSet(Apply(labels, pos, neg));
            Model(S, labels, hs) && Decisions(labels, Overwrite(known, pos, neg), S)
  {
    var after := Apply(labels, pos, neg);
    ApplyModels(TrueSet(after), labels, pos, neg, hs);
    forall p: nat ensures p in Overwrite(known, pos, neg) <==> p < |labels| {
      if p < |labels| { assert after[p].Classified?; }
    }
    assert forall p: nat :: p < |labels| ==> LabelOf(after, p) == after[p];
  }

  ghost predicate Decisions(labels: seq<Label>, frac: map<nat, real>, S: set<nat>) {
    (forall p: nat :: p in frac <==> p < |labels|) && forall p: nat :: p in frac ==> frac[p] == if p in S then 1.0
      else 0.0
  }

  lemma AddedFractions(labels: seq<Label>, hs: seq<Constraint>, sum: map<nat, real>, models: seq<set<nat>>,
                       frac: map<nat, real>, S: set<nat>)
    requires Tallies(labels, hs, sum, models) && Model(S, labels, hs) && Decisions(labels, frac, S)
    ensures Tallies(labels, hs, AddFractions(sum, frac), models + [S])
  {
    var more := models + [S];
    assert more[..|more| - 1] == models;
    assert forall T :: T in more <==> T in models || T == S;
    forall p: nat | p < |labels| && p !in sum ensures Votes(models, p) == 0 { assert models == []; }
  }
}
