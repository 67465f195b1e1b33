/**
 The teacher's learning loop over constrained Horn clauses (CHCs).  A CHC is re-checked only if the
 conjecture of one of its predicates has changed.
 */
module Cegis {
  import opened Horn
  import opened Encoding
  import opened Translation
  import opened LearnerInterface
  import opened Checker

  /** One formula for each relation. */
  type Conjectures = seq<Formula>

  ghost predicate Agree(a: Conjectures, b: Conjectures, preds: set<nat>) {
    forall p :: p in preds ==> p < |a| && p < |b| && a[p] == b[p]
  }

  function Changed(previous: Option<Conjectures>, conjectures: Conjectures): set<nat> {
    set p | 0 <= p < |conjectures| && (previous.None? || p >= |previous.value| || previous.value[p] != conjectures[p])
  }

  datatype Verdict = Solved(conjectures: Conjectures) | NoSolution | OutOfRounds

  class Teacher {
    const relations: seq<seq<Sort>>
    const chcs: seq<Chc>
    const theory: S.Interpretation                     // the meaning of all other symbols
    const z3: (S.Expr, nat) -> Option<Assignment>      // the solver, which may answer differently each time
    const learner: Interface
    var satisfied: seq<nat>
    var unsatisfied: seq<nat>
    var previous: Option<Conjectures>
    var checkedChcs: nat
    var learnerInvocations: nat

    // ---------- semantics ----------

    ghost predicate SatisfiedBy(conjectures: Conjectures, ce: Counterexample) {
      Fulfils(Reading(conjectures), ce)
    }

    ghost predicate ValidUnder(i: nat, conjectures: Conjectures) {
      forall ce :: Instance(i, ce) ==> SatisfiedBy(conjectures, ce)
    }

    /** The ground instances of a CHC, which is what its counterexamples are. */
    ghost predicate Instance(i: nat, ce: Counterexample) {
      i < |chcs| && WellFormedChc(chcs[i], relations, theory) && IsInstance(chcs[i], relations, theory, ce)
    }

    /** The interpretation makes every CHC true, whatever the values of its constants. */
    ghost predicate Solution(I: Point -> bool) {
      forall i: nat, m: Assignment :: i < |chcs| ==> IsTrue(chcs[i].expr, World(theory, relations, m, I))
    }

    /** Some interpretation of the relations solves the CHCs. */
    ghost predicate Solvable() {
      exists I: Point -> bool :: Solution(I)
    }

    ghost predicate MakesValid(I: Point -> bool) {
      forall i: nat, ce :: Instance(i, ce) ==> Fulfils(I, ce)
    }

    /** Solving the CHCs is fulfilling all their instances. */
    lemma SolutionMeans(I: Point -> bool)
      requires WellFormedProblem()
      ensures Solution(I) <==> MakesValid(I)
    {
      hide WellFormedChc, IsTrue, World, Fulfils, IsInstance;
      forall i: nat | i < |chcs|
        ensures (forall ce :: Instance(i, ce) ==> Fulfils(I, ce)) <==>
                forall m: Assignment :: IsTrue(chcs[i].expr, World(theory, relations, m, I))
      {
        InstancesMean(chcs[i], relations, theory, I);
      }
    }

    ghost predicate InstanceOver(ce: Counterexample, preds: set<nat>) {
      && |ce.rhs| <= 1 && (preds != {} ==> ce.lhs + ce.rhs != [])
      && forall q :: q in ce.lhs + ce.rhs ==> WellSorted(q, relations) && q.relation in preds
    }

    ghost predicate WellFormedProblem() {
      forall i :: 0 <= i < |chcs| ==> WellFormedChc(chcs[i], relations, theory)
    }

    /** Instances are over the relations of their CHC. */
    lemma InstanceSorts(i: nat, ce: Counterexample)
      requires WellFormedProblem() && Instance(i, ce)
      ensures InstanceOver(ce, Predicates(i))
    {
      InstanceSorted(chcs[i], relations, theory, ce);
    }

    ghost predicate SoundChecks() {
      Standard(theory) && SoundSolver(z3, theory, relations)
    }

    /** The relations of a CHC. */
    function Predicates(i: nat): set<nat> {
      if i < |chcs| then chcs[i].predicates else {}
    }

    ghost predicate IntegerRelations() {
      forall f :: 0 <= f < |relations| ==> IntSorted(relations[f])
    }

    /** Only the conjectures for its predicates matter to an instance. */
    lemma AgreeSatisfied(i: nat, a: Conjectures, b: Conjectures, ce: Counterexample)
      requires WellFormedProblem() && i < |chcs| && Instance(i, ce) && Agree(a, b, Predicates(i))
      ensures SatisfiedBy(a, ce) <==> SatisfiedBy(b, ce)
    {
      InstanceSorts(i, ce);
      forall q | q in ce.lhs + ce.rhs ensures Reading(a)(q) <==> Reading(b)(q) { assert q.relation in Predicates(i); }
      assert forall q :: q in ce.lhs || q in ce.rhs ==> q in ce.lhs + ce.rhs;
    }

    // ---------- the invariant ----------

    ghost predicate Violated(i: nat, conjectures: Conjectures, given: seq<Counterexample>) {
      exists ce :: ce in given && Instance(i, ce) && !SatisfiedBy(conjectures, ce)
    }

    ghost predicate AllInstances(given: seq<Counterexample>) {
      forall ce :: ce in given ==> exists i: nat :: i < |chcs| && Instance(i, ce)
    }

    /**
     The two lists partition the CHCs.  Satisfied ones are valid under the latest conjectures; for
     unsatisfied ones that mention a predicate, the sample has an instance the latest conjectures violate.
     */
    ghost predicate Inv(satisfied: seq<nat>, unsatisfied: seq<nat>, given: seq<Counterexample>,
                        previous: Option<Conjectures>) {
      && multiset(satisfied + unsatisfied) == multiset(seq(|chcs|, i requires 0 <= i => i))
      && (forall i :: i in satisfied ==> i < |chcs| && previous.Some? && ValidUnder(i, previous.value))
      && (forall i :: i in unsatisfied ==>
            i < |chcs| && (Predicates(i) == {} || previous.None? || Violated(i, previous.value, given)))
      && (previous.Some? ==> |previous.value| == |relations|)
      && AllInstances(given)
    }

    ghost predicate LearnerReady()
      reads this, learner
    {
      learner.Valid() && learner.relations == relations
    }

    ghost predicate Valid()
      reads this, learner
    {
      && WellFormedProblem() && SoundChecks() && LearnerReady()
      && Inv(satisfied, unsatisfied, learner.given, previous)
    }

    constructor (learner: Interface, chcs: seq<Chc>, theory: S.Interpretation, z3: (S.Expr, nat) -> Option<Assignment>)
      requires learner.Valid() && learner.given == []
      ensures this.relations == learner.relations && this.chcs == chcs && this.theory == theory
      ensures this.learner == learner && this.z3 == z3
      ensures WellFormedProblem() && SoundChecks() ==> Valid()
      ensures unsatisfied == seq(|chcs|, i requires 0 <= i => i) && satisfied == [] && previous.None?
    {
      this.relations, this.chcs, this.theory := learner.relations, chcs, theory;
      this.z3, this.learner := z3, learner;
      satisfied, previous, checkedChcs, learnerInvocations := [], None, 0, 0;
      unsatisfied := seq(|chcs|, i requires 0 <= i => i);
      new;
      assert [] + unsatisfied == unsatisfied;
      assert forall i :: i in unsatisfied ==> 0 <= i < |chcs|;
    }

    /** Unchanged predicates: the old and new conjectures agree on them. */
    lemma UnchangedAgrees(i: nat, previous: Option<Conjectures>, conjectures: Conjectures)
      requires i < |chcs| && WellFormedProblem() && |conjectures| == |relations|
      requires Predicates(i) !! Changed(previous, conjectures)
      ensures Predicates(i) != {} ==> previous.Some?
      ensures previous.Some? ==> Agree(previous.value, conjectures, Predicates(i))
    {
      forall p | p in Predicates(i)
        ensures previous.Some? && p < |previous.value| && previous.value[p] == conjectures[p]
      {
        assert p !in Changed(previous, conjectures);
      }
    }

    /**
     The assertion that is commented out in the loop: over integers, where the learner's conjectures
     fulfil all counterexamples, every unsatisfied CHC that mentions a predicate sees a changed conjecture.
     */
    lemma UnsatisfiedSeesChange(i: nat, conjectures: Conjectures)
      requires Valid() && |conjectures| == |relations| && FulfilsAll(Reading(conjectures), learner.given)
      requires i in unsatisfied && Predicates(i) != {}
      ensures !(Predicates(i) !! Changed(previous, conjectures))
    {
      hide LearnerReady;
      if Predicates(i) !! Changed(previous, conjectures) {
        UnchangedAgrees(i, previous, conjectures);
        var ce :| ce in learner.given && Instance(i, ce) && !SatisfiedBy(previous.value, ce);
        AgreeSatisfied(i, previous.value, conjectures, ce);
      }
    }

    // ---------- one round ----------

    /** Re-checks a CHC, unless none of its conjectures has changed. */
    method Recheck(i: nat, conjectures: Conjectures, changed: set<nat>)
      returns (checked: bool, counterexample: Option<Counterexample>)
      requires WellFormedProblem() && SoundChecks() && |conjectures| == |relations| && i < |chcs|
      modifies this`checkedChcs
      ensures checked <==> !(Predicates(i) !! changed)
      ensures counterexample.Some? ==>
                checked && Instance(i, counterexample.value) && !SatisfiedBy(conjectures, counterexample.value)
      ensures checked && counterexample.None? ==> ValidUnder(i, conjectures)
      ensures checked ==> Predicates(i) != {}
      ensures checkedChcs == old(checkedChcs) + if checked then 1 else 0
    {
      checked := !(Predicates(i) !! changed);
      counterexample := None;
      if checked {
        counterexample := CheckChc(chcs[i], relations, conjectures, theory, z3, checkedChcs);
        checkedChcs := checkedChcs + 1;
      }
    }

    /** The number of CHCs of a list that have a changed conjecture. */
    ghost function ChangedCount(list: seq<nat>, changed: set<nat>): nat {
      if list == [] then 0
      else ChangedCount(list[..|list| - 1], changed) + if Predicates(list[|list| - 1]) !! changed then 0 else 1
    }

    /** The entry at position `k` of a list, what comes after it, and the list without it. */
    lemma NextInList(list: seq<nat>, k: nat, all: seq<nat>, j: nat, changed: set<nat>)
      requires k < |list| && j <= |all| && list[k..] == all[j..]
      ensures j < |all| && list[k] == all[j]
      ensures list[k + 1..] == all[j + 1..] && (list[..k] + list[k + 1..])[k..] == all[j + 1..]
      ensures ChangedCount(all[..j + 1], changed) ==
                ChangedCount(all[..j], changed) + if Predicates(list[k]) !! changed then 0 else 1
    {
      assert |list[k..]| == |all[j..]| && list[k..][0] == all[j..][0];
      assert list[k + 1..] == list[k..][1..] && all[j + 1..] == all[j..][1..];
      assert all[..j + 1][..j] == all[..j];
    }

    lemma CountNone(all: seq<nat>, changed: set<nat>)
      ensures ChangedCount(all[..0], changed) == 0
    {
    }

    lemma ListDone(all: seq<nat>, j: nat)
      requires j <= |all| && all[j..] == []
      ensures all[..j] == all
    {
      assert |all[j..]| == |all| - j;
    }

    /** What the first pass leaves: unchanged CHCs and those a counterexample has been found for. */
    ghost predicate StillUnsatisfied(i: nat, conjectures: Conjectures, changed: set<nat>, found: seq<Counterexample>) {
      i < |chcs| && (Predicates(i) !! changed || Violated(i, conjectures, found))
    }

    /** Counterexamples found for CHCs that mention a predicate. */
    ghost predicate Proper(found: seq<Counterexample>) {
      AllInstances(found) && forall ce :: ce in found ==> ce.lhs + ce.rhs != []
    }

    lemma ProperMore(found: seq<Counterexample>, ce: Counterexample, i: nat)
      requires WellFormedProblem() && i < |chcs| && Predicates(i) != {} && Instance(i, ce) && Proper(found)
      ensures Proper(found + [ce])
    {
      InstanceSorts(i, ce);
    }

    lemma FoundMore(conjectures: Conjectures, changed: set<nat>, found: seq<Counterexample>, ce: Counterexample, i: nat)
      requires i < |chcs| && Instance(i, ce) && !SatisfiedBy(conjectures, ce)
      ensures forall j :: Violated(j, conjectures, found) ==> Violated(j, conjectures, found + [ce])
      ensures forall j :: StillUnsatisfied(j, conjectures, changed, found) ==>
                StillUnsatisfied(j, conjectures, changed, found + [ce])
      ensures Violated(i, conjectures, found + [ce]) && StillUnsatisfied(i, conjectures, changed, found + [ce])
    {
      assert ce in found + [ce];
    }

    /**
     The first pass has dealt with the first `j` of all unsatisfied CHCs: `now` are valid and taken out, and
     those before position `k` stay.
     */
    ghost predicate FirstPass(all: seq<nat>, j: nat, list: seq<nat>, k: nat, now: seq<nat>, found: seq<Counterexample>,
                              conjectures: Conjectures, changed: set<nat>) {
      && k <= |list| && j <= |all| && list[k..] == all[j..]
      && multiset(now) + multiset(list) == multiset(all)
      && (forall x :: 0 <= x < |list| ==> list[x] in all && list[x] < |chcs|)
      && (forall i :: i in now ==> i < |chcs| && ValidUnder(i, conjectures) && !(Predicates(i) !! changed))
      && (forall x :: 0 <= x < k ==> StillUnsatisfied(list[x], conjectures, changed, found))
      && Proper(found) && |now| + |found| == ChangedCount(all[..j], changed)
    }

    lemma FirstPassStarts(all: seq<nat>, conjectures: Conjectures, changed: set<nat>)
      requires forall i :: i in all ==> i < |chcs|
      ensures FirstPass(all, 0, all, 0, [], [], conjectures, changed)
    {
      assert all[0..] == all;
      CountNone(all, changed);
    }

    lemma FirstPassTakes(all: seq<nat>, j: nat, list: seq<nat>, k: nat, now: seq<nat>, found: seq<Counterexample>,
                         conjectures: Conjectures, changed: set<nat>)
      requires FirstPass(all, j, list, k, now, found, conjectures, changed) && k < |list|
      requires ValidUnder(list[k], conjectures) && !(Predicates(list[k]) !! changed)
      ensures FirstPass(all, j + 1, list[..k] + list[k + 1..], k, now + [list[k]], found, conjectures, changed)
    {
      hide ValidUnder, StillUnsatisfied, Proper, Predicates, ChangedCount;
      NextInList(list, k, all, j, changed);
      TakeOut(list, k);
    }

    lemma FirstPassFinds(all: seq<nat>, j: nat, list: seq<nat>, k: nat, now: seq<nat>, found: seq<Counterexample>,
                         conjectures: Conjectures, changed: set<nat>, ce: Counterexample)
      requires WellFormedProblem() && FirstPass(all, j, list, k, now, found, conjectures, changed) && k < |list|
      requires Instance(list[k], ce) && !SatisfiedBy(conjectures, ce) && !(Predicates(list[k]) !! changed)
      ensures FirstPass(all, j + 1, list, k + 1, now, found + [ce], conjectures, changed)
    {
      hide ValidUnder, StillUnsatisfied, Proper, Predicates, ChangedCount, Violated;
      NextInList(list, k, all, j, changed);
      FoundMore(conjectures, changed, found, ce, list[k]);
      ProperMore(found, ce, list[k]);
    }

    lemma FirstPassSkips(all: seq<nat>, j: nat, list: seq<nat>, k: nat, now: seq<nat>, found: seq<Counterexample>,
                         conjectures: Conjectures, changed: set<nat>)
      requires FirstPass(all, j, list, k, now, found, conjectures, changed) && k < |list| &&
                 Predicates(list[k]) !! changed
      ensures FirstPass(all, j + 1, list, k + 1, now, found, conjectures, changed)
    {
      hide ValidUnder, Proper, Predicates, ChangedCount, Violated;
      NextInList(list, k, all, j, changed);
    }

    lemma FirstPassNext(all: seq<nat>, j: nat, list: seq<nat>, k: nat, now: seq<nat>, found: seq<Counterexample>,
                        conjectures: Conjectures, changed: set<nat>)
      requires FirstPass(all, j, list, k, now, found, conjectures, changed) && k < |list|
      ensures list[k] < |chcs| && j < |all|
      ensures ChangedCount(all[..j + 1], changed) ==
                ChangedCount(all[..j], changed) + if Predicates(list[k]) !! changed then 0 else 1
    {
      NextInList(list, k, all, j, changed);
    }

    lemma FirstPassEnds(all: seq<nat>, j: nat, list: seq<nat>, now: seq<nat>, found: seq<Counterexample>,
                        conjectures: Conjectures, changed: set<nat>)
      requires FirstPass(all, j, list, |list|, now, found, conjectures, changed)
      ensures all[..j] == all && FirstPass(all, |all|, list, |list|, now, found, conjectures, changed)
    {
      ListDone(all, j);
    }

    /** Re-checks the unsatisfied CHCs that have a changed conjecture, and takes those that are valid now out. */
    method CheckUnsatisfied(conjectures: Conjectures, changed: set<nat>)
      returns (now: seq<nat>, found: seq<Counterexample>)
      requires WellFormedProblem() && SoundChecks() && |conjectures| == |relations|
      requires forall i :: i in unsatisfied ==> i < |chcs|
      modifies this`unsatisfied, this`checkedChcs
      ensures multiset(now) + multiset(unsatisfied) == multiset(old(unsatisfied))
      ensures forall i :: i in now ==> i < |chcs| && ValidUnder(i, conjectures) && !(Predicates(i) !! changed)
      ensures forall i :: i in unsatisfied ==> i in old(unsatisfied) && StillUnsatisfied(i, conjectures, changed, found)
      ensures forall i :: i in old(unsatisfied) ==> i in now || i in unsatisfied
      ensures Proper(found)
      ensures |now| + |found| == ChangedCount(old(unsatisfied), changed)
      ensures checkedChcs == old(checkedChcs) + ChangedCount(old(unsatisfied), changed)
    {
      hide FirstPass, ValidUnder, Violated, SatisfiedBy, SoundChecks, WellFormedProblem, StillUnsatisfied, Proper,
        Instance,
        ChangedCount, Predicates;
      now, found := [], [];
      var k := 0;
      ghost var all, j := unsatisfied, 0;
      FirstPassStarts(all, conjectures, changed);
      CountNone(all, changed);
      while k < |unsatisfied|
        invariant j <= |all| && k <= |unsatisfied| &&
                    FirstPass(all, j, unsatisfied, k, now, found, conjectures, changed)
        invariant checkedChcs == old(checkedChcs) + ChangedCount(all[..j], changed)
        decreases |unsatisfied| - k
      {
        FirstPassNext(all, j, unsatisfied, k, now, found, conjectures, changed);
        var i := unsatisfied[k];
        var checked, counterexample := Recheck(i, conjectures, changed);
        if checked && counterexample.None? {
          FirstPassTakes(all, j, unsatisfied, k, now, found, conjectures, changed);
          now := now + [i];
          unsatisfied := unsatisfied[..k] + unsatisfied[k + 1..];
        } else {
          if checked {
            FirstPassFinds(all, j, unsatisfied, k, now, found, conjectures, changed, counterexample.value);
            found := found + [counterexample.value];
          } else {
            FirstPassSkips(all, j, unsatisfied, k, now, found, conjectures, changed);
          }
          k := k + 1;
        }
        j := j + 1;
      }
      FirstPassEnds(all, j, unsatisfied, now, found, conjectures, changed);
      FirstPassResult(all, unsatisfied, now, found, conjectures, changed);
    }

    lemma FirstPassResult(all: seq<nat>, list: seq<nat>, now: seq<nat>, found: seq<Counterexample>,
                          conjectures: Conjectures, changed: set<nat>)
      requires FirstPass(all, |all|, list, |list|, now, found, conjectures, changed)
      ensures multiset(now) + multiset(list) == multiset(all) && Proper(found)
      ensures forall i :: i in now ==> i < |chcs| && ValidUnder(i, conjectures) && !(Predicates(i) !! changed)
      ensures forall i :: i in list ==> i in all && StillUnsatisfied(i, conjectures, changed, found)
      ensures forall i :: i in all ==> i in now || i in list
      ensures |now| + |found| == ChangedCount(all, changed)
    {
      hide ValidUnder, StillUnsatisfied, Proper, Predicates, ChangedCount;
      assert all[..|all|] == all;
      SplitList(all, now, list);
    }

    lemma SplitList(all: seq<nat>, a: seq<nat>, b: seq<nat>)
      requires multiset(a) + multiset(b) == multiset(all)
      ensures forall i :: i in all ==> i in a || i in b
    {
      forall i | i in all ensures i in a || i in b { assert i in multiset(all); }
    }

    /**
     The second pass has dealt with the first `j` of all satisfied CHCs: those before position `k` of the list
     stay, and the others have moved to the unsatisfied ones, which were `start` before.
     */
    ghost predicate SecondPass(all: seq<nat>, j: nat, list: seq<nat>, k: nat, start: seq<nat>, unsat: seq<nat>,
                               found: seq<Counterexample>, conjectures: Conjectures, changed: set<nat>) {
      && k <= |list| && j <= |all| && list[k..] == all[j..]
      && multiset(list) + multiset(unsat) == multiset(all) + multiset(start)
      && (forall x :: 0 <= x < |list| ==> list[x] in all && list[x] < |chcs|)
      && (forall i :: i in unsat ==> i in start || (i in all && Violated(i, conjectures, found)))
      && (forall i :: i in start ==> i in unsat)
      && (forall x :: 0 <= x < k ==> Predicates(list[x]) !! changed || ValidUnder(list[x], conjectures))
      && Proper(found) && |found| + |list| == |all|
    }

    lemma SecondPassMoves(all: seq<nat>, j: nat, list: seq<nat>, k: nat, start: seq<nat>, unsat: seq<nat>,
                          found: seq<Counterexample>, conjectures: Conjectures, changed: set<nat>, ce: Counterexample)
      requires WellFormedProblem() && SecondPass(all, j, list, k, start, unsat, found, conjectures, changed) &&
                 k < |list|
      requires Instance(list[k], ce) && !SatisfiedBy(conjectures, ce) && !(Predicates(list[k]) !! changed)
      ensures SecondPass(all, j + 1, list[..k] + list[k + 1..], k, start, unsat + [list[k]], found + [ce], conjectures,
                changed)
    {
      hide ValidUnder, StillUnsatisfied, Proper, Predicates, ChangedCount, Violated;
      NextInList(list, k, all, j, changed);
      TakeOut(list, k);
      FoundMore(conjectures, changed, found, ce, list[k]);
      ProperMore(found, ce, list[k]);
    }

    lemma SecondPassKeeps(all: seq<nat>, j: nat, list: seq<nat>, k: nat, start: seq<nat>, unsat: seq<nat>,
                          found: seq<Counterexample>, conjectures: Conjectures, changed: set<nat>)
      requires SecondPass(all, j, list, k, start, unsat, found, conjectures, changed) && k < |list|
      requires Predicates(list[k]) !! changed || ValidUnder(list[k], conjectures)
      ensures SecondPass(all, j + 1, list, k + 1, start, unsat, found, conjectures, changed)
    {
      hide ValidUnder, Proper, Predicates, ChangedCount, Violated;
      NextInList(list, k, all, j, changed);
    }

    lemma SecondPassNext(all: seq<nat>, j: nat, list: seq<nat>, k: nat, start: seq<nat>, unsat: seq<nat>,
                         found: seq<Counterexample>, conjectures: Conjectures, changed: set<nat>)
      requires SecondPass(all, j, list, k, start, unsat, found, conjectures, changed) && k < |list|
      ensures list[k] < |chcs| && j < |all|
      ensures ChangedCount(all[..j + 1], changed) ==
                ChangedCount(all[..j], changed) + if Predicates(list[k]) !! changed then 0 else 1
    {
      NextInList(list, k, all, j, changed);
    }

    lemma SecondPassStarts(all: seq<nat>, start: seq<nat>, conjectures: Conjectures, changed: set<nat>)
      requires forall i :: i in all ==> i < |chcs|
      ensures SecondPass(all, 0, all, 0, start, start, [], conjectures, changed)
    {
      assert all[0..] == all;
    }

    lemma SecondPassResult(all: seq<nat>, j: nat, list: seq<nat>, start: seq<nat>, unsat: seq<nat>,
                           found: seq<Counterexample>, conjectures: Conjectures, changed: set<nat>)
      requires SecondPass(all, j, list, |list|, start, unsat, found, conjectures, changed)
      ensures all[..j] == all && multiset(list) + multiset(unsat) == multiset(all) + multiset(start)
      ensures forall i :: i in list ==> i in all && (Predicates(i) !! changed || ValidUnder(i, conjectures))
      ensures forall i :: i in unsat ==> i in start || (i in all && Violated(i, conjectures, found))
      ensures forall i :: i in start ==> i in unsat
      ensures Proper(found) && |found| + |list| == |all|
    {
      hide ValidUnder, Proper, Predicates, Violated;
      ListDone(all, j);
    }

    /** Re-checks the satisfied CHCs that have a changed conjecture, and moves those that are violated. */
    method CheckSatisfied(conjectures: Conjectures, changed: set<nat>) returns (found: seq<Counterexample>)
      requires WellFormedProblem() && SoundChecks() && |conjectures| == |relations|
      requires forall i :: i in satisfied ==> i < |chcs|
      modifies this`satisfied, this`unsatisfied, this`checkedChcs
      ensures multiset(satisfied) + multiset(unsatisfied) == multiset(old(satisfied)) + multiset(old(unsatisfied))
      ensures forall i :: i in satisfied ==>
                i in old(satisfied) && (Predicates(i) !! changed || ValidUnder(i, conjectures))
      ensures forall i :: i in unsatisfied ==>
                i in old(unsatisfied) || (i in old(satisfied) && Violated(i, conjectures, found))
      ensures forall i :: i in old(unsatisfied) ==> i in unsatisfied
      ensures Proper(found) && |found| + |satisfied| == |old(satisfied)|
      ensures checkedChcs == old(checkedChcs) + ChangedCount(old(satisfied), changed)
    {
      hide SecondPass, ValidUnder, Violated, SatisfiedBy, SoundChecks, WellFormedProblem, StillUnsatisfied, Proper,
        Instance,
        ChangedCount, Predicates;
      found := [];
      var k := 0;
      ghost var all, j, start := satisfied, 0, unsatisfied;
      SecondPassStarts(all, start, conjectures, changed);
      CountNone(all, changed);
      while k < |satisfied|
        invariant j <= |all| && k <= |satisfied|
        invariant SecondPass(all, j, satisfied, k, start, unsatisfied, found, conjectures, changed)
        invariant checkedChcs == old(checkedChcs) + ChangedCount(all[..j], changed)
        decreases |satisfied| - k
      {
        SecondPassNext(all, j, satisfied, k, start, unsatisfied, found, conjectures, changed);
        var i := satisfied[k];
        var checked, counterexample := Recheck(i, conjectures, changed);
        if counterexample.Some? {
          SecondPassMoves(all, j, satisfied, k, start, unsatisfied, found, conjectures, changed, counterexample.value);
          found := found + [counterexample.value];
          unsatisfied := unsatisfied + [i];
          satisfied := satisfied[..k] + satisfied[k + 1..];
        } else {
          SecondPassKeeps(all, j, satisfied, k, start, unsatisfied, found, conjectures, changed);
          k := k + 1;
        }
        j := j + 1;
      }
      SecondPassResult(all, j, satisfied, start, unsatisfied, found, conjectures, changed);
    }

    lemma TakeOut(list: seq<nat>, k: nat)
      requires k < |list|
      ensures multiset(list) == multiset(list[..k] + list[k + 1..]) + multiset{list[k]}
      ensures forall i :: i in list <==> i in list[..k] + list[k + 1..] || i == list[k]
    {
      assert list == list[..k] + [list[k]] + list[k + 1..];
    }

    // ---------- the loop ----------

    /** Hands the counterexamples of a round over, unless one of them contradicts the earlier ones. */
    method AddCounterexamples(counterexamples: seq<Counterexample>) returns (ok: bool)
      requires LearnerReady() && WellFormedProblem() && AllInstances(learner.given) && AllInstances(counterexamples)
      requires forall ce :: ce in counterexamples ==> ce.lhs + ce.rhs != []
      modifies learner
      ensures LearnerReady()
      ensures ok ==> learner.given == old(learner.given) + counterexamples && AllInstances(learner.given)
      ensures !ok ==> !Solvable()
    {
      hide FulfilsAll, Fulfils, Interface.Valid, Solvable;
      var k := 0;
      while k < |counterexamples|
        invariant 0 <= k <= |counterexamples| && LearnerReady()
        invariant learner.given == old(learner.given) + counterexamples[..k] && AllInstances(learner.given)
      {
        var ce := counterexamples[k];
        assert ce in counterexamples;
        ghost var i: nat :| i < |chcs| && Instance(i, ce);
        InstanceSorts(i, ce);
        ghost var given := learner.given;
        var status := learner.AddCounterexample(ce);
        MoreInstances(given, [ce]);
        if status.Contradicting? {
          forall I: Point -> bool ensures !FulfilsAll(I, given + [ce]) {
            OneMore(I, given, ce);
            assert learner.given == given;
          }
          ContradictionUnsolvable(given + [ce]);
          return false;
        }
        assert counterexamples[..k] + [ce] == counterexamples[..k + 1];
        k := k + 1;
      }
      assert counterexamples[..k] == counterexamples;
      ok := true;
    }

    lemma MoreInstances(a: seq<Counterexample>, b: seq<Counterexample>)
      requires AllInstances(a) && AllInstances(b)
      ensures AllInstances(a + b)
    {
    }

    /** If no interpretation fulfils some instances of the CHCs, none solves them. */
    lemma ContradictionUnsolvable(given: seq<Counterexample>)
      requires WellFormedProblem() && AllInstances(given) && forall I: Point -> bool :: !FulfilsAll(I, given)
      ensures !Solvable()
    {
      hide Solution, WellFormedProblem;
      forall I: Point -> bool ensures !Solution(I) {
        SolutionMeans(I);
        assert MakesValid(I) ==> FulfilsAll(I, given);
      }
    }

    lemma RoundKeeps(satisfied0: seq<nat>, unsatisfied0: seq<nat>, conjectures: Conjectures,
                     now: seq<nat>, found: seq<Counterexample>, unsatisfied1: seq<nat>, satisfied1: seq<nat>,
                       unsatisfied2: seq<nat>,
                     more: seq<Counterexample>, given: seq<Counterexample>, previous: Option<Conjectures>)
      requires WellFormedProblem() && Inv(satisfied0, unsatisfied0, given, previous) && |conjectures| == |relations|
      requires multiset(now) + multiset(unsatisfied1) == multiset(unsatisfied0)
      requires multiset(satisfied1) + multiset(unsatisfied2) == multiset(satisfied0) + multiset(unsatisfied1)
      requires forall i :: i in now ==> i < |chcs| && ValidUnder(i, conjectures)
      requires forall i :: i in unsatisfied1 ==>
                 i in unsatisfied0 && StillUnsatisfied(i, conjectures, Changed(previous, conjectures), found)
      requires forall i :: i in satisfied1 ==>
                 i in satisfied0 && (Predicates(i) !! Changed(previous, conjectures) || ValidUnder(i, conjectures))
      requires forall i :: i in unsatisfied2 ==>
                 i in unsatisfied1 || (i in satisfied0 && Violated(i, conjectures, more))
      requires AllInstances(given + (found + more))
      ensures Inv(satisfied1 + now, unsatisfied2, given + (found + more), Some(conjectures))
    {
      hide AllInstances, WellFormedProblem;
      forall i | i in satisfied1 ensures i < |chcs| && ValidUnder(i, conjectures) {
        if Predicates(i) !! Changed(previous, conjectures) {
          UnchangedAgrees(i, previous, conjectures);
          forall ce | Instance(i, ce)
            ensures SatisfiedBy(conjectures, ce) { AgreeSatisfied(i, previous.value, conjectures, ce); }
        }
      }
      forall i | i in unsatisfied2
        ensures i < |chcs| && (Predicates(i) == {} || Violated(i, conjectures, given + (found + more)))
      {
        if i in unsatisfied1 && Predicates(i) != {} && Predicates(i) !! Changed(previous, conjectures) {
          UnchangedAgrees(i, previous, conjectures);
          var ce :| ce in given && Instance(i, ce) && !SatisfiedBy(previous.value, ce);
          AgreeSatisfied(i, previous.value, conjectures, ce);
          assert ce in given + (found + more);
        } else {
          assert forall ce :: ce in found || ce in more ==> ce in given + (found + more);
        }
      }
      calc {
        multiset(satisfied1 + now + unsatisfied2);
        (multiset(satisfied1) + multiset(unsatisfied2)) + multiset(now);
        (multiset(satisfied0) + multiset(unsatisfied1)) + multiset(now);
        multiset(satisfied0) + (multiset(now) + multiset(unsatisfied1));
        multiset(satisfied0 + unsatisfied0);
      }
    }

    /** Conjectures that fulfil the sample can only be violated by something new. */
    lemma NewCounterexample(i: nat, conjectures: Conjectures, given: seq<Counterexample>, added: seq<Counterexample>)
      requires Violated(i, conjectures, given + added) && FulfilsAll(Reading(conjectures), given)
      ensures exists ce :: ce in added && ce !in given
    {
      var ce :| ce in given + added && Instance(i, ce) && !SatisfiedBy(conjectures, ce);
      assert ce in given ==> Fulfils(Reading(conjectures), ce);
    }

    lemma LearnerGives()
      requires Valid()
      ensures AllInstances(learner.given)
    {
    }

    /** Re-checks the CHCs that have a changed conjecture, and finds what is to be added to the sample. */
    method CheckAll(conjectures: Conjectures) returns (added: seq<Counterexample>)
      requires Valid() && |conjectures| == |relations|
      modifies this`satisfied, this`unsatisfied, this`checkedChcs
      ensures Proper(added) && Inv(satisfied, unsatisfied, learner.given + added, Some(conjectures))
      ensures forall i :: i in old(unsatisfied) && Predicates(i) == {} ==> i in unsatisfied
      ensures var changed := Changed(previous, conjectures);
              checkedChcs ==
                old(checkedChcs) + ChangedCount(old(unsatisfied), changed) + ChangedCount(old(satisfied), changed)
    {
      hide ValidUnder, Violated, SatisfiedBy, SoundChecks, Interface.Valid, WellFormedProblem, ChangedCount,
        AllInstances,
        StillUnsatisfied;
      LearnerGives();
      var changed := Changed(previous, conjectures);
      ghost var satisfied0, unsatisfied0, given := satisfied, unsatisfied, learner.given;
      var now, found := CheckUnsatisfied(conjectures, changed);
      ghost var unsatisfied1 := unsatisfied;
      var more := CheckSatisfied(conjectures, changed);
      ghost var satisfied1 := satisfied;
      satisfied := satisfied + now;
      MoreInstances(found, more);
      MoreInstances(given, found + more);
      RoundKeeps(satisfied0, unsatisfied0, conjectures, now, found, unsatisfied1, satisfied1, unsatisfied, more, given,
        previous);
      added := found + more;
    }

    /** Every CHC mentions a relation. */
    ghost predicate AllMention() {
      forall i :: 0 <= i < |chcs| ==> Predicates(i) != {}
    }

    /** If a CHC that mentions a relation is left, something new has been added to the sample. */
    lemma SampleGrows(given: seq<Counterexample>, added: seq<Counterexample>, unsat: seq<nat>, conjectures: Conjectures)
      requires Inv(satisfied, unsat, given + added, Some(conjectures)) && FulfilsAll(Reading(conjectures), given)
      ensures (exists i :: i in unsat && Predicates(i) != {}) ==> exists ce :: ce in added && ce !in given
      ensures AllMention() && unsat != [] ==> exists i :: i in unsat && Predicates(i) != {}
    {
      hide Violated, AllInstances, ValidUnder;
      forall i | i in unsat && Predicates(i) != {} ensures exists ce :: ce in added && ce !in given {
        NewCounterexample(i, conjectures, given, added);
      }
      if AllMention() && unsat != [] {
        assert unsat[0] in unsat;
      }
    }

    /** One round of the loop; it ends the loop if the CHCs turn out to have no solution. */
    method Round(prephase: bool, useBounds: bool) returns (ok: bool)
      requires Valid()
      modifies this, learner
      ensures ok ==> Valid() && previous.Some?
      ensures !ok ==> !Solvable()
      ensures ok ==> forall i :: i in old(unsatisfied) && Predicates(i) == {} ==> i in unsatisfied
      ensures ok && IntegerRelations() ==>
                forall i :: i in old(unsatisfied) && Predicates(i) != {} ==>
                    !(Predicates(i) !! Changed(old(previous), previous.value))
      ensures learnerInvocations == old(learnerInvocations) + 1
      ensures ok ==> exists c :: previous == Some(c) && old(learner.MayAnswer(prephase, useBounds, Some(c)))
      ensures ok ==>
                var changed := Changed(old(previous), previous.value);
                checkedChcs ==
                  old(checkedChcs) + ChangedCount(old(unsatisfied), changed) + ChangedCount(old(satisfied), changed)
      ensures ok ==> old(learner.given) <= learner.given
      ensures ok && IntegerRelations() && (exists i :: i in unsatisfied && Predicates(i) != {}) ==>
                exists ce :: ce in learner.given && ce !in old(learner.given)
      ensures ok && IntegerRelations() && AllMention() && unsatisfied != [] ==>
                |learner.given| > |old(learner.given)|
    {
      hide ValidUnder, Violated, SatisfiedBy, SoundChecks, Interface.Valid, FulfilsAll, Solvable, AllInstances,
        ChangedCount, Inv, WellFormedProblem, AllMention, Interface.MayAnswer, Reading;
      LearnerGives();
      ghost var given := learner.given;
      var answer := learner.GetConjectures(prephase, useBounds);
      learnerInvocations := learnerInvocations + 1;
      if answer.None? {
        ContradictionUnsolvable(given);
        return false;
      }
      var conjectures := answer.value;
      if IntegerRelations() {
        forall i | i in unsatisfied && Predicates(i) != {} ensures !(Predicates(i) !! Changed(previous, conjectures)) {
          UnsatisfiedSeesChange(i, conjectures);
        }
      }
      var added := CheckAll(conjectures);
      if IntegerRelations() {
        SampleGrows(given, added, unsatisfied, conjectures);
      }
      ok := AddCounterexamples(added);
      previous := Some(conjectures);
    }

    /**
     The loop, for as many rounds as `fuel` allows.  Conjectures that are returned solve the CHCs, although
     unchanged ones have been skipped, which is what the naive check after the loop asserts; and the CHCs
     have no solution if the loop fails.  A CHC that mentions no predicate is never checked, so there is
     no success if there is one.  When the rounds are used up, some CHC is left, and over integers every
     round has added a counterexample that was not in the sample before.
     */
    method Learn(prephase: bool, useBounds: bool, fuel: nat) returns (verdict: Verdict)
      requires Valid() && previous.None?
      modifies this, learner
      ensures verdict.Solved? ==> Solution(Reading(verdict.conjectures)) && Solvable()
      ensures verdict.Solved? ==> forall i :: i in old(unsatisfied) ==> Predicates(i) != {}
      ensures verdict.NoSolution? ==> !Solvable()
      ensures verdict.OutOfRounds? ==> unsatisfied != [] && learnerInvocations == old(learnerInvocations) + fuel
      ensures verdict.OutOfRounds? && IntegerRelations() && AllMention() ==>
                |learner.given| >= |old(learner.given)| + fuel
    {
      var rounds := 0;
      ghost var start := unsatisfied;
      while unsatisfied != [] && rounds < fuel
        invariant Valid() && (previous.None? ==> unsatisfied == start)
        invariant forall i :: i in start && Predicates(i) == {} ==> i in unsatisfied
        invariant rounds <= fuel && learnerInvocations == old(learnerInvocations) + rounds
        invariant unsatisfied != [] && IntegerRelations() && AllMention() ==>
                    |learner.given| >= |old(learner.given)| + rounds
        decreases fuel - rounds
      {
        hide Inv, Solvable, Solution, Interface.Valid, AllMention, Predicates, ChangedCount, Interface.MayAnswer,
          SoundChecks,
          WellFormedProblem, IntegerRelations;
        var ok := Round(prephase, useBounds);
        if !ok {
          return NoSolution;
        }
        rounds := rounds + 1;
      }
      if unsatisfied != [] {
        return OutOfRounds;
      }
      verdict := Solved(if previous.Some? then previous.value else []);
      FinishedSolved(verdict.conjectures);
    }

    lemma FinishedSolved(conjectures: Conjectures)
      requires Valid() && unsatisfied == [] && (previous.Some? ==> previous.value == conjectures)
      ensures Solution(Reading(conjectures)) && Solvable()
    {
      hide Solution;
      var all := seq(|chcs|, i requires 0 <= i => i);
      assert satisfied + unsatisfied == satisfied;
      forall i: nat | i < |chcs| ensures i in satisfied && ValidUnder(i, conjectures) {
        assert all[i] == i && i in multiset(all);
        assert i in multiset(satisfied);
      }
      var I := Reading(conjectures);
      forall i: nat, ce | Instance(i, ce) ensures Fulfils(I, ce) {
        assert ValidUnder(i, conjectures) && SatisfiedBy(conjectures, ce);
      }
      SolutionMeans(I);
    }
  }
}
