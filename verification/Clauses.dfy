/**
 The solver's working clauses, the markings, and the invariants of its worklist loop, all on values.
 */
module Clauses {
  import opened Horn

  /** A working copy of a constraint: its premises shrink and its flag is set when it is settled. */
  datatype Clause = Clause(premises: seq<nat>, conclusion: nat, satisfied: bool)

  predicate Open(cs: seq<Clause>, i: int) {
    0 <= i < |cs| && !cs[i].satisfied
  }

  predicate Mentions(c: Clause, p: nat) {
    p in c.premises || p == c.conclusion
  }

  ghost predicate Respects(S: set<nat>, c: Clause) {
    (forall p :: p in c.premises ==> p in S) ==> c.conclusion in S
  }

  /** `S` solves what is left of the problem: the current labels and the open clauses. */
  ghost predicate Residual(S: set<nat>, labels: seq<Label>, cs: seq<Clause>) {
    && Agrees(S, labels)
    && forall i :: Open(cs, i) ==> Respects(S, cs[i])
  }

  /** Premises are data points, conclusions may be the false point `n`, open clauses have premises. */
  ghost predicate Shaped(n: nat, cs: seq<Clause>) {
    forall i :: 0 <= i < |cs| ==>
      && cs[i].conclusion <= n
      && (forall k :: 0 <= k < |cs[i].premises| ==> cs[i].premises[k] < n)
      && (!cs[i].satisfied ==> cs[i].premises != [])
  }

  /** `occurs[p]` lists at least the open clauses that mention `p`. */
  ghost predicate Indexed(n: nat, cs: seq<Clause>, occurs: seq<seq<nat>>) {
    && |occurs| == n + 1
    && (forall p, k :: 0 <= p <= n && 0 <= k < |occurs[p]| ==> occurs[p][k] < |cs|)
    && (forall i, p: nat :: Open(cs, i) && Mentions(cs[i], p) && p <= n ==> i in occurs[p])
  }

  // ---------- derivability ----------

  ghost predicate ClosedUnder(X: set<nat>, cs: seq<Clause>) {
    forall i :: Open(cs, i) ==> Respects(X, cs[i])
  }

  /** `d` is in every set that contains `m` and is closed under the open clauses. */
  ghost predicate Derives(cs: seq<Clause>, m: nat, d: nat) {
    forall X: set<nat> :: m in X && ClosedUnder(X, cs) ==> d in X
  }

  // ---------- markings ----------

  /** `marks[d]` is the list of markings of `d`: the points whose being true forces `d` to be true. */
  ghost predicate MarkShape(n: nat, marks: seq<set<nat>>) {
    && |marks| == n + 1
    && (forall d, m :: 0 <= d <= n && m in marks[d] ==> m < n)
    && (forall m :: 0 <= m < n ==> m in marks[m])
  }

  /** Every data point marks itself; the false point starts without markings. */
  function InitialMarks(n: nat): (marks: seq<set<nat>>)
    ensures |marks| == n + 1 && marks[n] == {}
    ensures forall d :: 0 <= d < n ==> marks[d] == {d}
  {
    seq(n + 1, d requires 0 <= d => if d < n then {d} else {})
  }

  predicate CommonMark(marks: seq<set<nat>>, premises: seq<nat>, m: nat) {
    forall p :: p in premises ==> p < |marks| && m in marks[p]
  }

  /** Every mark common to the premises is a mark of the conclusion. */
  ghost predicate MarkClosed(marks: seq<set<nat>>, c: Clause)
    requires c.conclusion < |marks|
  {
    forall m: nat :: CommonMark(marks, c.premises, m) ==> m in marks[c.conclusion]
  }

  ghost predicate AllMarkClosed(n: nat, cs: seq<Clause>, marks: seq<set<nat>>)
    requires Shaped(n, cs) && |marks| == n + 1
  {
    forall i :: Open(cs, i) ==> MarkClosed(marks, cs[i])
  }

  ghost predicate MarksSound(cs: seq<Clause>, marks: seq<set<nat>>) {
    forall d, m :: 0 <= d < |marks| && m in marks[d] ==> Derives(cs, m, d)
  }

  /** The conclusion has gained marks that all premises had, and no others. */
  ghost predicate OnlyCommonAdded(a: seq<set<nat>>, b: seq<set<nat>>, c: Clause) {
    c.conclusion < |a| && c.conclusion < |b| &&
    forall m :: m in b[c.conclusion] ==> m in a[c.conclusion] || CommonMark(a, c.premises, m)
  }

  ghost predicate MarksGrow(a: seq<set<nat>>, b: seq<set<nat>>) {
    && |a| == |b|
    && forall d :: 0 <= d < |a| ==> a[d] <= b[d]
  }

  /** The pairs that are not marked yet; every recursion of the marking computation shrinks this set. */
  ghost function Missing(n: nat, marks: seq<set<nat>>): set<(nat, nat)> {
    set d: nat, m: nat | 0 <= d <= n && 0 <= m < n && d < |marks| && m !in marks[d] :: (d, m)
  }

  lemma MissingShrinks(n: nat, a: seq<set<nat>>, b: seq<set<nat>>, d: nat, m: nat)
    requires MarksGrow(a, b)
    requires d <= n && m < n && d < |a| && m in b[d] && m !in a[d]
    ensures Missing(n, b) < Missing(n, a)
  {
    assert (d, m) in Missing(n, a) && (d, m) !in Missing(n, b);
  }

  /** A mark common to the premises derives the conclusion. */
  lemma CommonMarkDerives(cs: seq<Clause>, marks: seq<set<nat>>, i: nat, m: nat)
    requires Open(cs, i) && MarksSound(cs, marks) && CommonMark(marks, cs[i].premises, m)
    ensures Derives(cs, m, cs[i].conclusion)
  {
    forall X: set<nat> | m in X && ClosedUnder(X, cs) ensures cs[i].conclusion in X {
      forall p | p in cs[i].premises ensures p in X { assert Derives(cs, m, p); }
      assert Respects(X, cs[i]);
    }
  }

  /**
   The fixpoint: once the marks are sound and closed under every open clause, they are exactly the
   derivable pairs.
   */
  lemma MarksAreDerivable(n: nat, cs: seq<Clause>, marks: seq<set<nat>>)
    requires Shaped(n, cs) && MarkShape(n, marks) && MarksSound(cs, marks) && AllMarkClosed(n, cs, marks)
    ensures forall m, d :: 0 <= m < n && 0 <= d <= n ==> (m in marks[d] <==> Derives(cs, m, d))
  {
    forall m: nat, d: nat | m < n && d <= n && Derives(cs, m, d) ensures m in marks[d] {
      var X := set e | 0 <= e <= n && m in marks[e];
      forall i | Open(cs, i) ensures Respects(X, cs[i]) {
        if forall p :: p in cs[i].premises ==> p in X {
          assert CommonMark(marks, cs[i].premises, m);
        }
      }
      assert ClosedUnder(X, cs);
    }
  }

  // ---------- counting, for termination ----------

  ghost function OpenClauses(cs: seq<Clause>): set<int> {
    set i | 0 <= i < |cs| && Open(cs, i)
  }

  ghost function UnclassifiedPoints(labels: seq<Label>): set<int> {
    set p | 0 <= p < |labels| && labels[p].Unclassified?
  }

  /** Open clauses plus unclassified points. */
  ghost function Todo(labels: seq<Label>, cs: seq<Clause>): nat {
    |OpenClauses(cs)| + |UnclassifiedPoints(labels)|
  }

  lemma SubsetCard(a: set<int>, b: set<int>)
    requires a <= b
    ensures |a| <= |b| && (a != b ==> |a| < |b|)
  {
    assert b == a + (b - a);
    if a != b { assert b - a != {}; }
  }

  /** No clause reopens. */
  ghost predicate Settles(a: seq<Clause>, b: seq<Clause>) {
    |a| == |b| && forall i :: Open(b, i) ==> Open(a, i)
  }

  lemma TodoShrinks(l0: seq<Label>, c0: seq<Clause>, l1: seq<Label>, c1: seq<Clause>)
    requires Grows(l0, l1) && Settles(c0, c1)
    ensures Todo(l1, c1) <= Todo(l0, c0)
    ensures (exists p :: 0 <= p < |l0| && l0[p].Unclassified? && l1[p].Classified?) ==> Todo(l1, c1) < Todo(l0, c0)
    ensures (exists i :: Open(c0, i) && !Open(c1, i)) ==> Todo(l1, c1) < Todo(l0, c0)
  {
    SubsetCard(OpenClauses(c1), OpenClauses(c0));
    SubsetCard(UnclassifiedPoints(l1), UnclassifiedPoints(l0));
    if p :| 0 <= p < |l0| && l0[p].Unclassified? && l1[p].Classified? {
      assert p in UnclassifiedPoints(l0) && p !in UnclassifiedPoints(l1);
    }
    if i :| Open(c0, i) && !Open(c1, i) {
      assert i in OpenClauses(c0) && i !in OpenClauses(c1);
    }
  }
}
