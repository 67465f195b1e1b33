/**
 Horndini: Houdini for Horn constraints.  A hypothesis is one conjunction of predicates per category;
 learning removes predicates until the conjunctions are consistent, or finds that none are.
 */
module Horndini {
  import opened Horn
  import opened Tree

  // ---------- hypotheses ----------

  /** A hypothesis: a set of predicates for each value of the first categorical attribute. */
  type Hypothesis = seq<set<nat>>

  ghost predicate SatisfiesAll(d: Datum, conjunction: set<nat>) {
    forall c :: c in conjunction ==> c < |d.ints| && d.ints[c] != 0
  }

  ghost predicate Fits(data: seq<Datum>, functions: nat) {
    forall p :: 0 <= p < |data| ==> |data[p].categories| > 0 && data[p].categories[0] < functions
  }

  /** The point satisfies the conjunction of its own category. */
  ghost predicate Holds(data: seq<Datum>, H: Hypothesis, p: nat)
    requires Fits(data, |H|)
  {
    p < |data| && SatisfiesAll(data[p], H[data[p].categories[0]])
  }

  ghost function HypothesisSet(data: seq<Datum>, H: Hypothesis): set<nat>
    requires Fits(data, |H|)
  {
    set p | 0 <= p < |data| && Holds(data, H, p)
  }

  /** Positive points satisfy the hypothesis, and so do the constraints; negative points are not considered. */
  ghost predicate Admissible(data: seq<Datum>, labels: seq<Label>, hs: seq<Constraint>, H: Hypothesis)
    requires Fits(data, |H|)
  {
    && (forall p :: 0 <= p < |labels| && labels[p] == Classified(true) ==> Holds(data, H, p))
    && (forall k :: 0 <= k < |hs| ==> Satisfies(HypothesisSet(data, H), hs[k]))
  }

  /** Fewer predicates in every conjunction, that is, a weaker hypothesis. */
  ghost predicate Within(H: Hypothesis, K: Hypothesis) {
    |H| == |K| && forall f :: 0 <= f < |H| ==> H[f] <= K[f]
  }

  lemma WeakerHolds(data: seq<Datum>, H: Hypothesis, K: Hypothesis, p: nat)
    requires Fits(data, |H|) && Within(H, K) && Holds(data, K, p)
    ensures Holds(data, H, p)
  {
  }

  ghost function SetsOf(conjunctions: seq<seq<nat>>): (H: Hypothesis)
    ensures |H| == |conjunctions|
    ensures forall f, c :: 0 <= f < |H| ==> (c in H[f] <==> c in conjunctions[f])
  {
    seq(|conjunctions|, f requires 0 <= f < |conjunctions| => set c | c in conjunctions[f])
  }

  // ---------- learning ----------

  /** Does the point satisfy the conjunction? */
  method CheckSatisfies(d: Datum, conjunction: seq<nat>) returns (ok: bool)
    requires forall k :: 0 <= k < |conjunction| ==> conjunction[k] < |d.ints|
    ensures ok <==> SatisfiesAll(d, set c | c in conjunction)
  {
    var i := 0;
    while i < |conjunction|
      invariant 0 <= i <= |conjunction|
      invariant forall j :: 0 <= j < i ==> d.ints[conjunction[j]] != 0
    {
      if d.ints[conjunction[i]] == 0 {
        assert conjunction[i] in conjunction;
        return false;
      }
      i := i + 1;
    }
    return true;
  }

  /** Removes from a conjunction the predicates that are false on the point. */
  method KnockOff(d: Datum, conjunction: seq<nat>) returns (rest: seq<nat>)
    requires forall k :: 0 <= k < |conjunction| ==> conjunction[k] < |d.ints|
    ensures forall c :: c in rest <==> c in conjunction && d.ints[c] != 0
  {
    rest := conjunction;
    var i := 0;
    while i < |rest|
      invariant 0 <= i <= |rest|
      invariant forall k :: 0 <= k < |rest| ==> rest[k] < |d.ints| && rest[k] in conjunction
      invariant forall c :: c in conjunction && d.ints[c] != 0 ==> c in rest
      invariant forall j :: 0 <= j < i ==> d.ints[rest[j]] != 0
      decreases |rest| - i
    {
      if d.ints[rest[i]] == 0 {
        assert rest == rest[..i] + [rest[i]] + rest[i + 1..];
        rest := rest[..i] + rest[i + 1..];
      } else {
        i := i + 1;
      }
    }
  }

  /** Data points, conjunctions and constraints fit together. */
  ghost predicate Legal(data: seq<Datum>, hs: seq<Constraint>, conjunctions: seq<seq<nat>>) {
    && Fits(data, |conjunctions|)
    && AllWellFormed(hs, |data|)
    && forall f, k, p :: 0 <= f < |conjunctions| && 0 <= k < |conjunctions[f]| && 0 <= p < |data| ==>
         conjunctions[f][k] < |data[p].ints|
  }

  /** The hypotheses within the given predicates that are consistent with the positive points and constraints. */
  ghost predicate Candidate(data: seq<Datum>, labels: seq<Label>, hs: seq<Constraint>, start: Hypothesis, H: Hypothesis)
    requires Fits(data, |start|)
  {
    Within(H, start) && Admissible(data, labels, hs, H)
  }

  /** All candidates make the listed points true. */
  ghost predicate Forced(data: seq<Datum>, labels: seq<Label>, hs: seq<Constraint>, start: Hypothesis,
                         positives: seq<nat>)
    requires Fits(data, |start|)
  {
    forall H, p :: p in positives && Candidate(data, labels, hs, start, H) ==> Holds(data, H, p)
  }

  /** Nothing that a candidate contains has been removed. */
  ghost predicate Upper(data: seq<Datum>, labels: seq<Label>, hs: seq<Constraint>, start: Hypothesis, K: Hypothesis)
    requires Fits(data, |start|)
  {
    forall H :: Candidate(data, labels, hs, start, H) ==> Within(H, K)
  }

  /** Processes the positive points: removes every predicate that is false on one of them. */
  method ProcessPositives(data: seq<Datum>, positives: seq<nat>, conjunctions: seq<seq<nat>>,
                          ghost labels: seq<Label>, ghost hs: seq<Constraint>, ghost start: Hypothesis)
                              returns (rest: seq<seq<nat>>)
    requires Legal(data, hs, conjunctions) && |start| == |conjunctions|
    requires forall i :: 0 <= i < |positives| ==> positives[i] < |data|
    requires Forced(data, labels, hs, start, positives) && Upper(data, labels, hs, start, SetsOf(conjunctions))
    ensures Legal(data, hs, rest) && Within(SetsOf(rest), SetsOf(conjunctions))
    ensures Upper(data, labels, hs, start, SetsOf(rest))
    ensures forall i :: 0 <= i < |positives| ==> Holds(data, SetsOf(rest), positives[i])
  {
    rest := conjunctions;
    var i := 0;
    while i < |positives|
      invariant 0 <= i <= |positives|
      invariant Legal(data, hs, rest) && Within(SetsOf(rest), SetsOf(conjunctions))
      invariant Upper(data, labels, hs, start, SetsOf(rest))
      invariant forall j :: 0 <= j < i ==> Holds(data, SetsOf(rest), positives[j])
    {
      var d := data[positives[i]];
      var f := d.categories[0];
      var shorter := KnockOff(d, rest[f]);
      ghost var before := rest;
      rest := rest[f := shorter];
      KnockOffKeeps(data, labels, hs, start, before, rest, positives, i);
      i := i + 1;
    }
  }

  lemma KnockOffKeeps(data: seq<Datum>, labels: seq<Label>, hs: seq<Constraint>, start: Hypothesis,
                      before: seq<seq<nat>>, after: seq<seq<nat>>, positives: seq<nat>, i: nat)
    requires Legal(data, hs, before) && |start| == |before| == |after|
    requires i < |positives| && positives[i] < |data|
    requires Forced(data, labels, hs, start, positives) && Upper(data, labels, hs, start, SetsOf(before))
    requires var d := data[positives[i]]; var f := d.categories[0];
             (forall g :: 0 <= g < |before| && g != f ==> after[g] == before[g]) &&
             forall c :: c in after[f] <==> c in before[f] && d.ints[c] != 0
    ensures Within(SetsOf(after), SetsOf(before)) && Upper(data, labels, hs, start, SetsOf(after))
    ensures Legal(data, hs, after) && Holds(data, SetsOf(after), positives[i])
  {
    var d := data[positives[i]];
    var f := d.categories[0];
    forall k | 0 <= k < |after[f]| ensures after[f][k] in before[f] { assert after[f][k] in after[f]; }
    forall H | Candidate(data, labels, hs, start, H) ensures Within(H, SetsOf(after)) {
      assert Within(H, SetsOf(before)) && Holds(data, H, positives[i]);
      forall g | 0 <= g < |H| ensures H[g] <= SetsOf(after)[g] {
        assert H[g] <= SetsOf(before)[g];
        if g == f {
          forall c | c in H[g] ensures c in after[g] { assert d.ints[c] != 0; }
        }
      }
    }
  }

  ghost predicate AllSatisfied(data: seq<Datum>, H: Hypothesis, hs: seq<Constraint>)
    requires Fits(data, |H|)
  {
    forall k :: 0 <= k < |hs| ==> Satisfies(HypothesisSet(data, H), hs[k])
  }

  /**
   For the hypotheses within `K` that make the pending points true, the remaining constraints are as
   good as the original ones.
   */
  ghost predicate Remains(data: seq<Datum>, hs: seq<Constraint>, K: Hypothesis, pending: seq<nat>,
                          work: seq<Constraint>)
    requires Fits(data, |K|)
  {
    forall H :: Within(H, K) && (forall p :: p in pending ==> Holds(data, H, p)) ==>
      (AllSatisfied(data, H, hs) <==> AllSatisfied(data, H, work))
  }

  /** Takes the premises that satisfy their conjunctions out. */
  method ReducePremises(data: seq<Datum>, premises: seq<nat>, conjunctions: seq<seq<nat>>) returns (rest: seq<nat>)
    requires Legal(data, [], conjunctions) && forall k :: 0 <= k < |premises| ==> premises[k] < |data|
    ensures forall p :: p in rest <==> p in premises && !Holds(data, SetsOf(conjunctions), p)
    ensures forall k :: 0 <= k < |rest| ==> rest[k] < |data|
  {
    rest := premises;
    var i := 0;
    while i < |rest|
      invariant 0 <= i <= |rest|
      invariant forall k :: 0 <= k < |rest| ==> rest[k] < |data| && rest[k] in premises
      invariant forall p :: p in premises && !Holds(data, SetsOf(conjunctions), p) ==> p in rest
      invariant forall j :: 0 <= j < i ==> !Holds(data, SetsOf(conjunctions), rest[j])
      decreases |rest| - i
    {
      var satisfied := CheckSatisfies(data[rest[i]], conjunctions[data[rest[i]].categories[0]]);
      assert SetsOf(conjunctions)[data[rest[i]].categories[0]] == set c |
          c in conjunctions[data[rest[i]].categories[0]];
      if satisfied {
        assert rest == rest[..i] + [rest[i]] + rest[i + 1..];
        rest := rest[..i] + rest[i + 1..];
      } else {
        i := i + 1;
      }
    }
  }

  lemma AllSatisfiedSplit(data: seq<Datum>, H: Hypothesis, a: seq<Constraint>, h: Constraint, b: seq<Constraint>)
    requires Fits(data, |H|)
    ensures AllSatisfied(data, H, a + [h] + b) <==>
            AllSatisfied(data, H, a) && Satisfies(HypothesisSet(data, H), h) && AllSatisfied(data, H, b)
  {
    var all := a + [h] + b;
    assert forall k :: 0 <= k < |a| ==> all[k] == a[k];
    assert all[|a|] == h;
    assert forall k :: 0 <= k < |b| ==> all[|a| + 1 + k] == b[k];
  }

  lemma {:induction false} AllSatisfiedConcat(data: seq<Datum>, H: Hypothesis, a: seq<Constraint>, b: seq<Constraint>)
    requires Fits(data, |H|)
    ensures AllSatisfied(data, H, a + b) <==> AllSatisfied(data, H, a) && AllSatisfied(data, H, b)
  {
    var all := a + b;
    assert forall k :: 0 <= k < |a| ==> all[k] == a[k];
    assert forall k :: 0 <= k < |b| ==> all[|a| + k] == b[k];
  }

  /** Reducing one constraint: a premise that holds under `K` holds under every hypothesis within `K`. */
  lemma ReduceRemains(data: seq<Datum>, hs: seq<Constraint>, K: Hypothesis, pending: seq<nat>,
                      a: seq<Constraint>, h: Constraint, b: seq<Constraint>, rest: seq<nat>)
    requires Fits(data, |K|) && Remains(data, hs, K, pending, a + [h] + b)
    requires forall p :: p in rest <==> p in h.premises && !Holds(data, K, p)
    ensures Remains(data, hs, K, pending, a + [h.(premises := rest)] + b)
  {
    var h' := h.(premises := rest);
    forall H | Within(H, K) && (forall p :: p in pending ==> Holds(data, H, p))
      ensures AllSatisfied(data, H, hs) <==> AllSatisfied(data, H, a + [h'] + b)
    {
      AllSatisfiedSplit(data, H, a, h, b);
      AllSatisfiedSplit(data, H, a, h', b);
      forall p | p in h.premises && p !in rest ensures p in HypothesisSet(data, H) { WeakerHolds(data, H, K, p); }
    }
  }

  /** A constraint without premises is replaced by its conclusion. */
  lemma DischargeRemains(data: seq<Datum>, labels: seq<Label>, hs: seq<Constraint>, start: Hypothesis, K: Hypothesis,
                         pending: seq<nat>,
                         a: seq<Constraint>, h: Constraint, b: seq<Constraint>)
    requires Fits(data, |K|) && |start| == |K| && Remains(data, hs, K, pending, a + [h] + b) && h.premises == []
    requires Forced(data, labels, hs, start, pending) && Upper(data, labels, hs, start, K)
    ensures h.conclusion.None? ==> forall H :: !Candidate(data, labels, hs, start, H)
    ensures h.conclusion.Some? ==>
              Remains(data, hs, K, pending + [h.conclusion.value], a + b) &&
              Forced(data, labels, hs, start, pending + [h.conclusion.value])
  {
    forall H | Candidate(data, labels, hs, start, H)
      ensures h.conclusion.Some? && Holds(data, H, h.conclusion.value)
    {
      assert AllSatisfied(data, H, hs);
      AllSatisfiedSplit(data, H, a, h, b);
    }
    if h.conclusion.Some? {
      var more := pending + [h.conclusion.value];
      forall H | Within(H, K) && (forall p :: p in more ==> Holds(data, H, p))
        ensures AllSatisfied(data, H, hs) <==> AllSatisfied(data, H, a + b)
      {
        AllSatisfiedSplit(data, H, a, h, b);
        AllSatisfiedConcat(data, H, a, b);
        assert h.conclusion.value in more;
      }
    }
  }

  /** No constraint has all its premises satisfied. */
  ghost predicate Unfinished(data: seq<Datum>, K: Hypothesis, h: Constraint)
    requires Fits(data, |K|)
  {
    exists p :: p in h.premises && !Holds(data, K, p)
  }

  /** One pass over the constraints; fails if a constraint without conclusion has no premises left. */
  method ScanConstraints(data: seq<Datum>, conjunctions: seq<seq<nat>>, constraints: seq<Constraint>,
                         ghost labels: seq<Label>, ghost hs: seq<Constraint>, ghost start: Hypothesis)
    returns (ok: bool, work: seq<Constraint>, pending: seq<nat>)
    requires Legal(data, constraints, conjunctions) && |start| == |conjunctions|
    requires Remains(data, hs, SetsOf(conjunctions), [], constraints)
    requires Upper(data, labels, hs, start, SetsOf(conjunctions))
    ensures !ok ==> forall H :: !Candidate(data, labels, hs, start, H)
    ensures ok ==> AllWellFormed(work, |data|) && Remains(data, hs, SetsOf(conjunctions), pending, work)
    ensures ok ==> Forced(data, labels, hs, start, pending) && forall i :: 0 <= i < |pending| ==> pending[i] < |data|
    ensures ok ==> forall i :: 0 <= i < |work| ==> Unfinished(data, SetsOf(conjunctions), work[i])
    ensures |work| + |pending| <= |constraints|
  {
    ok, work, pending := true, constraints, [];
    ghost var K := SetsOf(conjunctions);
    var i := 0;
    while i < |work| && ok
      invariant 0 <= i <= |work| && |work| + |pending| <= |constraints|
      invariant ok ==> AllWellFormed(work, |data|) && Remains(data, hs, K, pending, work)
      invariant ok ==> Forced(data, labels, hs, start, pending) && forall j :: 0 <= j < |pending| ==>
                  pending[j] < |data|
      invariant ok ==> forall j :: 0 <= j < i ==> Unfinished(data, K, work[j])
      invariant !ok ==> forall H :: !Candidate(data, labels, hs, start, H)
      decreases |work| - i, ok
    {
      hide Remains, Forced, Upper, Candidate, Holds;
      ghost var a, b := work[..i], work[i + 1..];
      var h := work[i];
      assert WellFormed(h, |data|);
      assert forall k :: 0 <= k < |h.premises| ==> h.premises[k] in h.premises;
      var rest := ReducePremises(data, h.premises, conjunctions);
      assert work == a + [h] + b;
      ReduceRemains(data, hs, K, pending, a, h, b, rest);
      h := h.(premises := rest);
      if rest == [] {
        DischargeRemains(data, labels, hs, start, K, pending, a, h, b);
        if h.conclusion.None? {
          ok := false;
        } else {
          pending := pending + [h.conclusion.value];
          work := work[..i] + work[i + 1..];
        }
      } else {
        assert rest[0] in rest;
        work := work[i := h];
        assert work == a + [h] + b;
        i := i + 1;
      }
    }
  }

  lemma ClearRemains(data: seq<Datum>, hs: seq<Constraint>, K: Hypothesis, L: Hypothesis, pending: seq<nat>,
                     work: seq<Constraint>)
    requires Fits(data, |K|) && Within(L, K) && Remains(data, hs, K, pending, work)
    requires forall p :: p in pending ==> Holds(data, L, p)
    ensures Remains(data, hs, L, [], work)
  {
    forall H | Within(H, L) ensures AllSatisfied(data, H, hs) <==> AllSatisfied(data, H, work) {
      forall p | p in pending ensures Holds(data, H, p) { WeakerHolds(data, H, L, p); }
    }
  }

  /** When nothing is pending, the remaining predicates are a candidate, and all candidates lie within them. */
  lemma FinishedStrongest(data: seq<Datum>, labels: seq<Label>, hs: seq<Constraint>, start: Hypothesis, K: Hypothesis,
                          work: seq<Constraint>)
    requires Fits(data, |K|) && Within(K, start) && Remains(data, hs, K, [], work)
    requires forall p :: 0 <= p < |labels| && labels[p] == Classified(true) ==> Holds(data, K, p)
    requires forall i :: 0 <= i < |work| ==> Unfinished(data, K, work[i])
    ensures Candidate(data, labels, hs, start, K)
  {
    forall i | 0 <= i < |work| ensures Satisfies(HypothesisSet(data, K), work[i]) {
      assert Unfinished(data, K, work[i]);
    }
    assert AllSatisfied(data, K, work) && Within(K, K);
  }

  method CollectPositives(labels: seq<Label>) returns (positives: seq<nat>)
    ensures forall p: nat :: p in positives <==> p < |labels| && labels[p] == Classified(true)
  {
    positives := [];
    var i := 0;
    while i < |labels|
      invariant 0 <= i <= |labels|
      invariant forall p: nat :: p in positives <==> p < i && labels[p] == Classified(true)
    {
      if labels[i] == Classified(true) {
        positives := positives + [i];
      }
      i := i + 1;
    }
  }

  /**
   Computes the strongest consistent conjunctions over the given predicates: the result makes all
   positive points true and satisfies the constraints, and contains every choice of predicates that
   does.  Fails exactly if there is no such choice.
   */
  method Learn(data: seq<Datum>, labels: seq<Label>, hs: seq<Constraint>, conjunctions: seq<seq<nat>>)
    returns (ok: bool, result: seq<seq<nat>>)
    requires Legal(data, hs, conjunctions) && |labels| == |data|
    ensures |result| == |conjunctions|
    ensures ok ==> Legal(data, hs, result) && Candidate(data, labels, hs, SetsOf(conjunctions), SetsOf(result))
    ensures ok ==> forall H :: Candidate(data, labels, hs, SetsOf(conjunctions), H) ==> Within(H, SetsOf(result))
    ensures !ok ==> forall H :: !Candidate(data, labels, hs, SetsOf(conjunctions), H)
  {
    ghost var start := SetsOf(conjunctions);
    ok, result := true, conjunctions;
    var work := hs;
    var pending: seq<nat> := CollectPositives(labels);
    assert forall i :: 0 <= i < |pending| ==> pending[i] in pending;
    ghost var positives := pending;
    var first := true;
    while ok && (first || pending != [])
      invariant |result| == |conjunctions|
      invariant !first || pending == positives
      invariant ok ==> Legal(data, work, result) && Within(SetsOf(result), start)
      invariant ok ==>
                  Remains(data, hs, SetsOf(result), pending, work) && Upper(data, labels, hs, start, SetsOf(result))
      invariant ok ==> Forced(data, labels, hs, start, pending) && forall i :: 0 <= i < |pending| ==>
                  pending[i] < |data|
      invariant ok && !first ==> forall i :: 0 <= i < |work| ==> Unfinished(data, SetsOf(result), work[i])
      invariant ok && !first ==> forall p :: p in positives ==> Holds(data, SetsOf(result), p)
      invariant !ok ==> forall H :: !Candidate(data, labels, hs, start, H)
      decreases ok, |work| + |pending| + if first then 1 else 0
    {
      ghost var K := SetsOf(result);
      if pending != [] {
        result := ProcessPositives(data, pending, result, labels, hs, start);
      }
      ClearRemains(data, hs, K, SetsOf(result), pending, work);
      ok, work, pending := ScanConstraints(data, result, work, labels, hs, start);
      first := false;
    }
    if ok {
      FinishedStrongest(data, labels, hs, start, SetsOf(result), work);
    }
  }
}
