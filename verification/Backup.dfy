/**
 What the solver's set-up phase establishes, on values: the working clauses, together with the labels
 found so far and the constraints not copied yet, are equivalent to the problem posed.
 */
module Backup {
  import opened Horn
  import opened Clauses
  import opened Worklist

  function ConclusionOf(h: Constraint, n: nat): nat {
    if h.conclusion.Some? then h.conclusion.value else n
  }

  // ---------- which labels the set-up finds ----------

  /** Whether the set-up goes on, the labels by then, and the positive points by then. */
  datatype SetUp = SetUp(ok: bool, labels: seq<Label>, pos: set<nat>)

  /** A constraint whose premises are all labelled true labels its conclusion, or clashes with it. */
  function SetUpStep(labels: seq<Label>, pos: set<nat>, negative: set<nat>, h: Constraint): SetUp {
    var q := ConclusionOf(h, |labels|);
    if LabelOf(labels, q) == Classified(true) ||
       exists p :: p in h.premises && LabelOf(labels, p) != Classified(true)
    then
      SetUp(true, labels, pos)
    else if q in negative || LabelOf(labels, q) == Classified(false) then
      SetUp(false, labels, pos)
    else
      SetUp(true, labels[q := Classified(true)], pos + {q})
  }

  /** The set-up goes through the constraints once, in order, and stops at the first clash. */
  function SetUpAll(labels: seq<Label>, pos: set<nat>, negative: set<nat>, hs: seq<Constraint>): SetUp
    decreases |hs|
  {
    if hs == [] then SetUp(true, labels, pos)
    else
      var step := SetUpStep(labels, pos, negative, hs[0]);
      if step.ok then SetUpAll(step.labels, step.pos, negative, hs[1..]) else step
  }

  lemma SetUpNext(labels: seq<Label>, pos: set<nat>, negative: set<nat>, hs: seq<Constraint>, k: nat)
    requires k < |hs|
    ensures var step := SetUpStep(labels, pos, negative, hs[k]);
            SetUpAll(labels, pos, negative, hs[k..]) ==
              if step.ok then SetUpAll(step.labels, step.pos, negative, hs[k + 1..]) else step
  {
    assert hs[k..][0] == hs[k] && hs[k..][1..] == hs[k + 1..];
  }

  /**
   All true labels and all positive points are in the set, and it satisfies the constraints that have a
   conclusion.
   */
  ghost predicate Accepts(S: set<nat>, labels: seq<Label>, pos: set<nat>, hs: seq<Constraint>) {
    && pos <= S && (forall p: nat :: LabelOf(labels, p) == Classified(true) ==> p in S)
    && forall k :: 0 <= k < |hs| && hs[k].conclusion.Some? ==> Satisfies(S, hs[k])
  }

  /** Positive points found by the set-up are forced by those given, also if it clashes. */
  lemma {:induction false} SetUpForced(S: set<nat>, labels: seq<Label>, pos: set<nat>, negative: set<nat>,
                                       hs: seq<Constraint>)
    requires Accepts(S, labels, pos, hs)
    ensures pos <= SetUpAll(labels, pos, negative, hs).pos <= S
    decreases |hs|
  {
    if hs != [] {
      var step := SetUpStep(labels, pos, negative, hs[0]);
      if step.ok {
        if step.pos != pos {
          assert Satisfies(S, hs[0]);
          var q := hs[0].conclusion.value;
          assert forall p: nat :: LabelOf(step.labels, p) == Classified(true) ==>
              LabelOf(labels, p) == Classified(true) || p == q;
        }
        SetUpForced(S, step.labels, step.pos, negative, hs[1..]);
      }
    }
  }

  /**
   A failing call may have added to the positive points: here the first constraint adds 0, and the second one
   clashes.
   */
  lemma FailureGrowsPositive()
    ensures var setUp := SetUpAll([Unclassified], {}, {}, [Constraint([], Some(0)), Constraint([0], None)]);
            !setUp.ok && setUp.pos == {0}
  {
    var first, second := Constraint([], Some(0)), Constraint([0], None);
    var step := SetUpStep([Unclassified], {}, {}, first);
    assert step == SetUp(true, [Classified(true)], {0});
    assert [first, second][1..] == [second];
    assert SetUpStep(step.labels, step.pos, {}, second) == SetUp(false, step.labels, {0});
  }

  // ---------- copying constraints ----------

  lemma StepSkips(labels: seq<Label>, pos: set<nat>, negative: set<nat>, h: Constraint, rest: seq<nat>)
    requires Reduces(labels, h.premises, rest)
    requires LabelOf(labels, ConclusionOf(h, |labels|)) == Classified(true) || rest != [] ||
             exists p :: p in h.premises && LabelOf(labels, p) == Classified(false)
    ensures SetUpStep(labels, pos, negative, h) == SetUp(true, labels, pos)
  {
    assert rest != [] ==> rest[0] in rest;
  }

  lemma StepForces(labels: seq<Label>, pos: set<nat>, negative: set<nat>, h: Constraint)
    requires Reduces(labels, h.premises, []) && LabelOf(labels, ConclusionOf(h, |labels|)) != Classified(true)
    ensures var q := ConclusionOf(h, |labels|);
            SetUpStep(labels, pos, negative, h) ==
              if q in negative || LabelOf(labels, q) == Classified(false) then SetUp(false, labels, pos)
              else SetUp(true, labels[q := Classified(true)], pos + {q})
  {
    assert forall p :: p in h.premises ==> p in h.premises && p !in [];
  }

  /** `rest` is what remains of the premises once those labelled true are taken out. */
  ghost predicate Reduces(labels: seq<Label>, premises: seq<nat>, rest: seq<nat>) {
    forall p :: p in rest <==> p in premises && LabelOf(labels, p) != Classified(true)
  }

  lemma ReducedEquivalent(S: set<nat>, labels: seq<Label>, h: Constraint, rest: seq<nat>)
    requires Agrees(S, labels) && WellFormed(h, |labels|) && Reduces(labels, h.premises, rest)
    ensures Satisfies(S, h) <==> Respects(S, Clause(rest, ConclusionOf(h, |labels|), false))
  {
    assert LabelOf(labels, |labels|) == Classified(false);
    forall p | p in h.premises && p !in rest ensures p in S {
      assert LabelOf(labels, p) == Classified(true);
    }
  }

  /**
   The state of the set-up: `derived` are the points labelled true so far, `positive` the ones given.
   Working clauses mention no point that was true at the start and have no premise that was false.
   */
  ghost predicate BackedUp(s: State, start: seq<Label>, positive: set<nat>, derived: set<nat>) {
    && Shaped(|start|, s.cs)
    && (forall i, p: nat :: Open(s.cs, i) && Mentions(s.cs[i], p) ==> LabelOf(start, p) != Classified(true))
    && (forall i, p: nat :: Open(s.cs, i) && p in s.cs[i].premises ==> LabelOf(start, p) != Classified(false))
    && (forall i :: Open(s.cs, i) && LabelOf(start, s.cs[i].conclusion) == Classified(false) ==>
      s.cs[i].conclusion in s.work)
    && (forall k :: 0 <= k < |s.work| ==> s.work[k] <= |start| && LabelOf(start, s.work[k]) == Classified(false))
    && s.pos == positive + derived
    && Compatible(start, s.pos, s.neg)
    && s.labels == Apply(start, derived, {})
  }

  /** Copying one constraint keeps the solutions that decide the given points as told. */
  ghost predicate Copies(s: State, t: State, goal: seq<Label>, h: Constraint) {
    forall S :: Agrees(S, goal) ==>
      (Residual(S, t.labels, t.cs) <==> Residual(S, s.labels, s.cs) && Satisfies(S, h))
  }

  function Push(s: State, c: Clause): State {
    s.(cs := s.cs + [c],
       work := if LabelOf(s.labels, c.conclusion) == Classified(false) then s.work + [c.conclusion] else s.work)
  }

  function Derive(s: State, q: nat): State
    requires q < |s.labels|
  {
    s.(labels := s.labels[q := Classified(true)], pos := s.pos + {q})
  }

  /** A constraint with a true conclusion or a false premise needs no copy. */
  lemma SkipCopies(s: State, goal: seq<Label>, h: Constraint)
    requires WellFormed(h, |s.labels|)
    requires LabelOf(s.labels, ConclusionOf(h, |s.labels|)) == Classified(true) ||
             exists p :: p in h.premises && LabelOf(s.labels, p) == Classified(false)
    ensures Copies(s, s, goal, h)
  {
  }

  lemma PushResidual(S: set<nat>, s: State, c: Clause)
    requires !c.satisfied
    ensures Residual(S, s.labels, s.cs + [c]) <==> Residual(S, s.labels, s.cs) && Respects(S, c)
  {
    var cs := s.cs + [c];
    assert forall i :: Open(s.cs, i) ==> Open(cs, i) && cs[i] == s.cs[i];
    assert Open(cs, |s.cs|) && cs[|s.cs|] == c;
    assert forall i :: Open(cs, i) ==> i == |s.cs| || Open(s.cs, i);
  }

  lemma PushKeeps(s: State, start: seq<Label>, positive: set<nat>, derived: set<nat>, goal: seq<Label>, h: Constraint,
                  rest: seq<nat>)
    requires BackedUp(s, start, positive, derived) && WellFormed(h, |start|) && Reduces(s.labels, h.premises, rest)
    requires rest != [] && LabelOf(s.labels, ConclusionOf(h, |start|)) != Classified(true)
    requires forall p :: p in h.premises ==> LabelOf(s.labels, p) != Classified(false)
    ensures var t := Push(s, Clause(rest, ConclusionOf(h, |start|), false));
            BackedUp(t, start, positive, derived) && Copies(s, t, goal, h)
  {
    var c := Clause(rest, ConclusionOf(h, |start|), false);
    var t := Push(s, c);
    assert forall i :: Open(t.cs, i) ==> if i < |s.cs| then Open(s.cs, i) && t.cs[i] == s.cs[i] else t.cs[i] == c;
    assert forall k :: 0 <= k < |rest| ==> rest[k] in h.premises;
    assert forall p: nat :: LabelOf(start, p).Classified? ==> LabelOf(s.labels, p) == LabelOf(start, p);
    assert c.conclusion !in derived ==> LabelOf(s.labels, c.conclusion) == LabelOf(start, c.conclusion);
    forall S | Agrees(S, goal)
      ensures Residual(S, t.labels, t.cs) <==> Residual(S, s.labels, s.cs) && Satisfies(S, h)
    {
      PushResidual(S, s, c);
      if Agrees(S, s.labels) { ReducedEquivalent(S, s.labels, h, rest); }
    }
  }

  /** Without premises left, the conclusion must be true. */
  lemma DeriveKeeps(s: State, start: seq<Label>, positive: set<nat>, derived: set<nat>, goal: seq<Label>, h: Constraint)
    requires BackedUp(s, start, positive, derived) && WellFormed(h, |start|) && Reduces(s.labels, h.premises, [])
    requires ConclusionOf(h, |start|) !in s.neg && LabelOf(s.labels, ConclusionOf(h, |start|)) != Classified(false)
    ensures h.conclusion.Some?
    ensures var q := h.conclusion.value;
            BackedUp(Derive(s, q), start, positive, derived + {q}) && Copies(s, Derive(s, q), goal, h)
  {
    assert LabelOf(s.labels, |start|) == Classified(false);
    var q := h.conclusion.value;
    var t := Derive(s, q);
    assert t.labels == Apply(start, derived + {q}, {});
    assert forall p: nat :: p != q ==> LabelOf(t.labels, p) == LabelOf(s.labels, p);
    forall S | Agrees(S, goal)
      ensures Residual(S, t.labels, t.cs) <==> Residual(S, s.labels, s.cs) && Satisfies(S, h)
    {
      assert LabelOf(t.labels, q) == Classified(true);
      if Agrees(S, s.labels) { ReducedEquivalent(S, s.labels, h, []); }
      assert Agrees(S, t.labels) <==> Agrees(S, s.labels) && q in S by {
        if Agrees(S, t.labels) {
          assert forall p: nat :: LabelOf(s.labels, p).Classified? ==> LabelOf(t.labels, p) == LabelOf(s.labels, p);
        }
      }
    }
  }

  /** A conclusion that must be both true and false: there is no solution. */
  lemma ClashHasNoModel(s: State, goal: seq<Label>, h: Constraint)
    requires WellFormed(h, |s.labels|) && Reduces(s.labels, h.premises, [])
    requires LabelOf(s.labels, ConclusionOf(h, |s.labels|)) == Classified(false) ||
             LabelOf(goal, ConclusionOf(h, |s.labels|)) == Classified(false)
    ensures forall S :: Agrees(S, goal) && Residual(S, s.labels, s.cs) ==> !Satisfies(S, h)
  {
    forall S | Agrees(S, goal) && Residual(S, s.labels, s.cs) ensures !Satisfies(S, h) {
      ReducedEquivalent(S, s.labels, h, []);
      assert ConclusionOf(h, |s.labels|) !in S;
    }
  }

  /** Once the given points are labelled and stacked as well, the loop can start. */
  lemma FilledInv(s: State, start: seq<Label>, positive: set<nat>, derived: set<nat>, t: State)
    requires BackedUp(s, start, positive, derived)
    requires t.cs == s.cs && t.pos == s.pos && t.neg == s.neg
    requires t.labels == Apply(start, s.pos, s.neg) && Indexed(|start|, t.cs, t.occurs)
    requires !t.marked && t.marks == InitialMarks(|start|)
    requires Stacked(t)
    requires forall p :: p in s.work || p in s.pos || p in s.neg ==> p in t.work
    ensures Inv(t, start, {})
  {
    forall i, p: nat | Open(t.cs, i) && Mentions(t.cs[i], p) && LabelOf(t.labels, p).Classified? ensures p in t.work {
      assert LabelOf(start, p) != Classified(true);
      if p !in s.pos && p !in s.neg {
        assert LabelOf(start, p) == LabelOf(t.labels, p);
        assert p !in t.cs[i].premises;
      }
    }
  }

  /** The problem left to solve stays the one posed when the given points are labelled. */
  lemma FilledModels(S: set<nat>, s: State, start: seq<Label>, positive: set<nat>, derived: set<nat>)
    requires BackedUp(s, start, positive, derived)
    ensures Agrees(S, Apply(start, positive, s.neg)) && Residual(S, s.labels, s.cs) <==>
            Residual(S, Apply(start, s.pos, s.neg), s.cs)
  {
    var goal, full := Apply(start, positive, s.neg), Apply(start, s.pos, s.neg);
    if Agrees(S, goal) && Agrees(S, s.labels) {
      forall p: nat | LabelOf(full, p).Classified? ensures p in S <==> LabelOf(full, p).value {
        assert LabelOf(full, p) == LabelOf(goal, p) || LabelOf(full, p) == LabelOf(s.labels, p);
      }
    }
    if Agrees(S, full) {
      forall p: nat | LabelOf(goal, p).Classified? ensures p in S <==> LabelOf(goal, p).value {
        assert LabelOf(full, p) == LabelOf(goal, p);
      }
      forall p: nat | LabelOf(s.labels, p).Classified? ensures p in S <==> LabelOf(s.labels, p).value {
        assert LabelOf(full, p) == LabelOf(s.labels, p);
      }
    }
  }

  /** The working clauses stand for the first `k` constraints. */
  ghost predicate CopiedTo(s: State, goal: seq<Label>, hs: seq<Constraint>, k: nat)
    requires k <= |hs|
  {
    forall S :: Agrees(S, goal) ==> (Residual(S, s.labels, s.cs) <==> forall j :: 0 <= j < k ==> Satisfies(S, hs[j]))
  }

  lemma CopiedStep(s: State, t: State, goal: seq<Label>, hs: seq<Constraint>, k: nat)
    requires k < |hs| && CopiedTo(s, goal, hs, k) && Copies(s, t, goal, hs[k])
    ensures CopiedTo(t, goal, hs, k + 1)
  {
  }

  /** A constraint that clashes with all solutions of those before it refutes the problem. */
  lemma ClashRefutes(s: State, goal: seq<Label>, hs: seq<Constraint>, k: nat)
    requires k < |hs| && CopiedTo(s, goal, hs, k)
    requires forall S :: Agrees(S, goal) && Residual(S, s.labels, s.cs) ==> !Satisfies(S, hs[k])
    ensures !Satisfiable(goal, hs)
  {
    hide Residual, Agrees, Satisfies;
    forall S ensures !Model(S, goal, hs) {}
  }

  /** The whole set-up leaves the problem posed. */
  lemma SetupModels(s: State, start: seq<Label>, positive: set<nat>, derived: set<nat>, hs: seq<Constraint>)
    requires BackedUp(s, start, positive, derived) && CopiedTo(s, Apply(start, positive, s.neg), hs, |hs|)
    ensures forall S :: Model(S, Apply(start, positive, s.neg), hs) <==> Residual(S, Apply(start, s.pos, s.neg), s.cs)
  {
    forall S ensures Model(S, Apply(start, positive, s.neg), hs) <==> Residual(S, Apply(start, s.pos, s.neg), s.cs) {
      FilledModels(S, s, start, positive, derived);
    }
  }

  lemma BackedUpLength(s: State, start: seq<Label>, positive: set<nat>, derived: set<nat>)
    requires BackedUp(s, start, positive, derived)
    ensures |s.labels| == |start|
  {
  }

  lemma GoalFalse(s: State, start: seq<Label>, positive: set<nat>, derived: set<nat>, p: nat)
    requires BackedUp(s, start, positive, derived) && p in s.neg
    ensures LabelOf(Apply(start, positive, s.neg), p) == Classified(false)
  {
  }

  lemma StartBackedUp(s: State, positive: set<nat>, hs: seq<Constraint>)
    requires s.cs == [] && s.work == [] && s.pos == positive && Compatible(s.labels, positive, s.neg)
    ensures BackedUp(s, s.labels, positive, {})
    ensures CopiedTo(s, Apply(s.labels, positive, s.neg), hs, 0)
  {
    assert s.labels == Apply(s.labels, {}, {});
    forall S | Agrees(S, Apply(s.labels, positive, s.neg)) ensures Residual(S, s.labels, s.cs) {
      ApplyModels(S, s.labels, positive, s.neg, []);
    }
  }

  /** When the stack is empty, the labels are closed and have the models of the problem posed. */
  lemma ExhaustedClosed(s: State, start: seq<Label>, goal: seq<Label>, hs: seq<Constraint>)
    requires Inv(s, start, {}) && s.work == []
    requires Grows(goal, s.labels)
    requires forall S :: Model(S, goal, hs) <==> Residual(S, s.labels, s.cs)
    ensures Closed(s.labels, hs) && Satisfiable(goal, hs)
    ensures forall S :: Model(S, goal, hs) <==> Model(S, s.labels, hs)
  {
    forall S ensures Model(S, goal, hs) <==> Model(S, s.labels, hs) {
      if Model(S, s.labels, hs) {
        forall p: nat | LabelOf(goal, p).Classified? ensures p in S <==> LabelOf(goal, p).value {
          assert LabelOf(s.labels, p) == LabelOf(goal, p);
        }
      }
    }
    ExhaustedFalse(s, start);
    assert Model(TrueSet(s.labels), s.labels, hs);
    forall m: nat | m < |s.labels| && s.labels[m].Unclassified? ensures exists S :: Model(S, s.labels, hs) && m in S {
      var S := ExhaustedTrue(s, start, m);
      assert Model(S, s.labels, hs);
    }
  }
}
