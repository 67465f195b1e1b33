/**
 The Horn solver: a worklist algorithm that decides whether the labels can be completed, and labels
 what every completion agrees on.
 */
module HornSolver {
  import opened Horn
  import opened Clauses
  import opened Worklist
  import opened Backup

  /** The classifications stored in the data points; the solver writes to them and restores them. */
  class Sample {
    var labels: seq<Label>

    constructor (labels: seq<Label>)
      ensures this.labels == labels
    {
      this.labels := labels;
    }

    /** Classifies a point unless it has the other classification already. */
    method SetClassification(p: nat, v: bool) returns (ok: bool)
      modifies this
      ensures ok <==> LabelOf(old(labels), p) != Classified(!v)
      ensures labels == if p < |old(labels)| && ok then old(labels)[p := Classified(v)] else old(labels)
    {
      if p >= |labels| {
        ok := !v;
      } else if labels[p].Classified? {
        ok := labels[p].value == v;
      } else {
        labels := labels[p := Classified(v)];
        ok := true;
      }
    }
  }

  class Solver {
    var clauses: seq<Clause>
    var occurs: seq<seq<nat>>
    var worklist: seq<nat>
    var marks: seq<set<nat>>
    var computeMarking: bool
    var constraintsWithoutConclusion: bool

    constructor ()
    {
      clauses, occurs, worklist, marks := [], [], [], [];
      computeMarking, constraintsWithoutConclusion := true, false;
    }

    ghost function Now(points: Sample, pos: set<nat>, neg: set<nat>): State
      reads this, points
    {
      State(points.labels, clauses, occurs, worklist, !computeMarking, marks, pos, neg)
    }

    // ---------- markings ----------

    /** Is `m` a marking of every premise of clause `i`? */
    method IsCommonMark(i: nat, n: nat, m: nat) returns (common: bool)
      requires i < |clauses| && Shaped(n, clauses) && |marks| == n + 1
      requires clauses[i].premises != [] && m in marks[clauses[i].premises[0]]
      ensures common <==> CommonMark(marks, clauses[i].premises, m)
    {
      var premises := clauses[i].premises;
      common := true;
      var j := 1;
      while j < |premises| && common
        invariant 1 <= j <= |premises|
        invariant common ==> forall k :: 0 <= k < j ==> m in marks[premises[k]]
        invariant !common ==> exists k :: 0 <= k < |premises| && m !in marks[premises[k]]
      {
        common := m in marks[premises[j]];
        j := j + 1;
      }
    }

    /** Gives the conclusion of clause `i` the markings its premises have in common. */
    method AddCommonMarks(i: nat, n: nat) returns (changed: bool)
      requires Open(clauses, i) && Shaped(n, clauses) && MarkShape(n, marks) && MarksSound(clauses, marks)
      modifies this`marks
      ensures MarkShape(n, marks) && MarksSound(clauses, marks)
      ensures MarksGrow(old(marks), marks)
      ensures forall d :: 0 <= d <= n && d != clauses[i].conclusion ==> marks[d] == old(marks)[d]
      ensures forall m :: CommonMark(old(marks), clauses[i].premises, m) ==> m in marks[clauses[i].conclusion]
      ensures OnlyCommonAdded(old(marks), marks, clauses[i])
      ensures !changed ==> marks == old(marks)
      ensures changed ==> Missing(n, marks) < Missing(n, old(marks))
    {
      var c := clauses[i];
      changed := false;
      var todo := marks[c.premises[0]];
      ghost var before := marks;
      while todo != {}
        invariant todo <= before[c.premises[0]]
        invariant MarkShape(n, marks) && MarksSound(clauses, marks) && MarksGrow(before, marks)
        invariant forall d :: 0 <= d <= n && d != c.conclusion ==> marks[d] == before[d]
        invariant forall m :: CommonMark(before, c.premises, m) ==> m in todo || m in marks[c.conclusion]
        invariant OnlyCommonAdded(before, marks, c)
        invariant !changed ==> marks == before
        invariant changed ==> Missing(n, marks) < Missing(n, before)
        decreases todo
      {
        var m :| m in todo;
        todo := todo - {m};
        var common := IsCommonMark(i, n, m);
        if common && m !in marks[c.conclusion] {
          CommonMarkDerives(clauses, marks, i, m);
          assert CommonMark(before, c.premises, m);
          ghost var previous := marks;
          marks := marks[c.conclusion := marks[c.conclusion] + {m}];
          MissingShrinks(n, previous, marks, c.conclusion, m);
          changed := true;
        } else if !common {
          assert !CommonMark(before, c.premises, m);
        }
      }
    }

    /** Clauses that do not have `d` among their premises stay closed when only `d` gains marks. */
    lemma OthersStayClosed(c: Clause, a: seq<set<nat>>, b: seq<set<nat>>, d: nat)
      requires c.conclusion < |a| && MarksGrow(a, b) && MarkClosed(a, c)
      requires forall e :: 0 <= e < |a| && e != d ==> b[e] == a[e]
      requires d !in c.premises || d == c.conclusion
      ensures MarkClosed(b, c)
    {
      forall m: nat | CommonMark(b, c.premises, m) ensures m in b[c.conclusion] {
        if d !in c.premises { assert CommonMark(a, c.premises, m); }
      }
    }

    lemma ConclusionCloses(c: Clause, a: seq<set<nat>>, b: seq<set<nat>>)
      requires |a| == |b| && c.conclusion < |a| && MarksGrow(a, b)
      requires forall d :: 0 <= d < |a| && d != c.conclusion ==> b[d] == a[d]
      requires forall m :: CommonMark(a, c.premises, m) ==> m in b[c.conclusion]
      ensures MarkClosed(b, c)
    {
      forall m: nat | CommonMark(b, c.premises, m) ensures m in b[c.conclusion] {
        if c.conclusion !in c.premises { assert CommonMark(a, c.premises, m); }
      }
    }

    lemma ClauseInRange(n: nat, cs: seq<Clause>, i: nat)
      requires Shaped(n, cs) && Open(cs, i)
      ensures cs[i].conclusion <= n
    {
    }

    /**
     Computes the markings of clause `i` and, recursively, of the open clauses that depend on its
     conclusion.  Closed clauses stay closed, because those that may not be are still to be called.
     */
    method ComputeMarking(i: nat, n: nat)
      requires Open(clauses, i) && Shaped(n, clauses) && Indexed(n, clauses, occurs)
      requires MarkShape(n, marks) && MarksSound(clauses, marks)
      modifies this`marks
      ensures MarkShape(n, marks) && MarksSound(clauses, marks) && MarksGrow(old(marks), marks)
      ensures MarkClosed(marks, clauses[i])
      ensures forall j :: Open(clauses, j) && MarkClosed(old(marks), clauses[j]) ==> MarkClosed(marks, clauses[j])
      ensures Missing(n, marks) <= Missing(n, old(marks))
      decreases Missing(n, marks)
    {
      hide OnlyCommonAdded, MarkClosed, CommonMark, MarksSound, Missing;
      var c := clauses[i];
      ClauseInRange(n, clauses, i);
      var changed := AddCommonMarks(i, n);
      ConclusionCloses(c, old(marks), marks);
      label Added:
      forall j | Open(clauses, j) && MarkClosed(old(marks), clauses[j]) &&
          !(c.conclusion in clauses[j].premises && clauses[j].conclusion != c.conclusion)
        ensures MarkClosed(marks, clauses[j])
      {
        OthersStayClosed(clauses[j], old(marks), marks, c.conclusion);
      }
      if changed {
        var dependents := occurs[c.conclusion];
        var k := 0;
        while k < |dependents|
          invariant 0 <= k <= |dependents|
          invariant MarkShape(n, marks) && MarksSound(clauses, marks) && MarksGrow(old(marks), marks)
          invariant Missing(n, marks) < Missing(n, old(marks))
          invariant MarkClosed(marks, c)
          invariant forall j :: Open(clauses, j) && MarkClosed(old(marks), clauses[j]) ==>
            MarkClosed(marks, clauses[j]) || (j in dependents[k..] && clauses[j].conclusion != c.conclusion)
        {
          var j := dependents[k];
          assert dependents[k..] == [j] + dependents[k + 1..];
          if !clauses[j].satisfied && clauses[j].conclusion != c.conclusion {
            ComputeMarking(j, n);
          }
          k := k + 1;
        }
      }
    }

    /** Computes all markings: exactly the pairs derivable from the open clauses. */
    method ComputeCurrentMarking(n: nat)
      requires Shaped(n, clauses) && Indexed(n, clauses, occurs)
      requires MarkShape(n, marks) && MarksSound(clauses, marks)
      modifies this`marks
      ensures MarkShape(n, marks) && MarksSound(clauses, marks) && AllMarkClosed(n, clauses, marks)
      ensures forall m, d :: 0 <= m < n && 0 <= d <= n ==> (m in marks[d] <==> Derives(clauses, m, d))
    {
      var i := 0;
      while i < |clauses|
        invariant 0 <= i <= |clauses|
        invariant MarkShape(n, marks) && MarksSound(clauses, marks)
        invariant forall j :: Open(clauses, j) && j < i ==> MarkClosed(marks, clauses[j])
      {
        if !clauses[i].satisfied {
          ComputeMarking(i, n);
        }
        i := i + 1;
      }
      MarksAreDerivable(n, clauses, marks);
    }

    // ---------- propagation ----------

    /**
     Removes settled clauses from a point's list.  After every removal the scan restarts behind the
     first entry, so a settled clause may stay, but only in front.
     */
    method RemoveSatisfied(list: seq<nat>) returns (rest: seq<nat>)
      requires forall k :: 0 <= k < |list| ==> list[k] < |clauses|
      ensures forall k :: 0 <= k < |rest| ==> rest[k] < |clauses|
      ensures forall i :: i in rest ==> i in list
      ensures forall i :: i in list && !clauses[i].satisfied ==> i in rest
      ensures forall k :: 1 <= k < |rest| ==> !clauses[rest[k]].satisfied
    {
      rest := list;
      var k := 0;
      while k < |rest|
        invariant 0 <= k <= |rest|
        invariant forall j :: 0 <= j < |rest| ==> rest[j] < |clauses|
        invariant forall i :: i in rest ==> i in list
        invariant forall i :: i in list && !clauses[i].satisfied ==> i in rest
        invariant forall j :: 1 <= j < k ==> !clauses[rest[j]].satisfied
        decreases |rest|, |rest| - k
      {
        if clauses[rest[k]].satisfied {
          ghost var before := rest;
          rest := rest[..k] + rest[k + 1..];
          assert before == before[..k] + [before[k]] + before[k + 1..];
          if rest != [] {
            k := 1;
          } else {
            break;
          }
        } else {
          k := k + 1;
        }
      }
    }

    /** Labels false every point that marks the false point `x`. */
    method FalsifyMarks(points: Sample, x: nat, ghost pos: set<nat>, neg: set<nat>, ghost start: seq<Label>)
      returns (ok: bool, neg': set<nat>)
      requires Inv(Now(points, pos, neg), start, {x}) && !computeMarking
      requires x <= |points.labels| && IsFalse(Now(points, pos, neg), x)
      modifies this`worklist, points
      ensures ok && Inv(Now(points, pos, neg'), start, {x})
      ensures SameModels(old(Now(points, pos, neg)), Now(points, pos, neg'))
      ensures Advances(old(Now(points, pos, neg)), Now(points, pos, neg'))
      ensures MarksFalse(Now(points, pos, neg'), x) && NoTruths(Now(points, pos, neg'))
    {
      hide Residual, TruesPending, FalsesPending, Indexed, Recorded, AllMarkClosed;
      ok, neg' := true, neg;
      ghost var s0 := Now(points, pos, neg);
      var todo := marks[x];
      while todo != {} && ok
        invariant todo <= marks[x] && ok
        invariant Inv(Now(points, pos, neg'), start, {x})
        invariant SameModels(s0, Now(points, pos, neg'))
        invariant Advances(s0, Now(points, pos, neg'))
        invariant forall m :: m in marks[x] ==> m in todo || m == x || IsFalse(Now(points, pos, neg'), m)
        decreases todo
      {
        ghost var s := Now(points, pos, neg');
        var m :| m in todo;
        todo := todo - {m};
        if m != x && LabelOf(points.labels, m) != Classified(false) {
          FalsifyKeeps(s, start, x, m);
          ok := points.SetClassification(m, false);
          if ok {
            worklist := worklist + [m];
            neg' := neg' + {m};
          }
          assert Now(points, pos, neg') == Learn(s, m, false);
        }
      }
    }

    /** Computes the markings if that has not been done since the call of `Solve`. */
    method EnsureMarking(points: Sample, x: nat, ghost pos: set<nat>, ghost neg: set<nat>, ghost start: seq<Label>)
      requires Inv(Now(points, pos, neg), start, {x}) && IsFalse(Now(points, pos, neg), x)
      requires NoTruths(Now(points, pos, neg))
      modifies this`marks, this`computeMarking
      ensures !computeMarking && Inv(Now(points, pos, neg), start, {x})
      ensures old(!computeMarking) ==> marks == old(marks)
    {
      if computeMarking {
        ghost var s := Now(points, pos, neg);
        ComputeCurrentMarking(|points.labels|);
        computeMarking := false;
        MarkKeeps(s, start, x, marks);
      }
    }

    /** Propagates the false point `x` through clause `i`.  This never fails. */
    method PropagateFalse(points: Sample, i: nat, x: nat, ghost pos: set<nat>, neg: set<nat>, ghost start: seq<Label>)
      returns (ok: bool, neg': set<nat>)
      requires Inv(Now(points, pos, neg), start, {x}) && Open(clauses, i)
      requires x <= |points.labels| && IsFalse(Now(points, pos, neg), x)
      requires NoTruths(Now(points, pos, neg))
      modifies this`clauses, this`worklist, this`marks, this`computeMarking, points
      ensures ok && Inv(Now(points, pos, neg'), start, {x})
      ensures SameModels(old(Now(points, pos, neg)), Now(points, pos, neg'))
      ensures Advances(old(Now(points, pos, neg)), Now(points, pos, neg'))
      ensures Handled(Now(points, pos, neg'), i, x)
      ensures NoTruths(Now(points, pos, neg'))
      ensures forall j :: 0 <= j < |clauses| && j != i ==> clauses[j] == old(clauses[j])
      ensures old(!computeMarking) ==> !computeMarking && marks == old(marks)
    {
      ok, neg' := true, neg;
      ghost var s := Now(points, pos, neg);
      hide TruesPending, FalsesPending, MarkedWell, Indexed, Recorded, Residual, Stacked;
      if x in clauses[i].premises {
        SettleKeeps(s, start, {x}, i);
        clauses := clauses[i := clauses[i].(satisfied := true)];
      } else if clauses[i].conclusion == x && |clauses[i].premises| == 1 {
        var q := clauses[i].premises[0];
        ConcludeFalseKeeps(s, start, x, i);
        ok := points.SetClassification(q, false);
        if ok {
          worklist := worklist + [q];
          neg' := neg' + {q};
          clauses := clauses[i := clauses[i].(satisfied := true)];
        }
        assert Now(points, pos, neg') == ConcludeFalse(s, i);
      } else if clauses[i].conclusion == x {
        EnsureMarking(points, x, pos, neg, start);
        ok, neg' := FalsifyMarks(points, x, pos, neg, start);
      }
    }

    /** Propagates the true point `x` through clause `i`; fails if its conclusion is false already. */
    method PropagateTrue(points: Sample, i: nat, x: nat, pos: set<nat>, ghost neg: set<nat>, ghost start: seq<Label>)
      returns (ok: bool, pos': set<nat>)
      requires Inv(Now(points, pos, neg), start, {x}) && Open(clauses, i)
      requires x <= |points.labels| && IsTrue(Now(points, pos, neg), x) && computeMarking
      modifies this`clauses, this`worklist, points
      ensures |points.labels| == |old(points.labels)| && pos <= pos'
      ensures ok ==> Inv(Now(points, pos', neg), start, {x})
      ensures ok ==> SameModels(old(Now(points, pos, neg)), Now(points, pos', neg))
      ensures ok ==> Advances(old(Now(points, pos, neg)), Now(points, pos', neg))
      ensures ok ==> Handled(Now(points, pos', neg), i, x)
      ensures ok ==> forall j :: 0 <= j < |clauses| && j != i ==> clauses[j] == old(clauses[j])
      ensures !ok ==> forall S :: !Residual(S, old(points.labels), old(clauses))
    {
      ok, pos' := true, pos;
      ghost var s := Now(points, pos, neg);
      if clauses[i].conclusion == x {
        SettleKeeps(s, start, {x}, i);
        clauses := clauses[i := clauses[i].(satisfied := true)];
      } else {
        clauses := clauses[i := clauses[i].(premises := Without(clauses[i].premises, x))];
        assert Now(points, pos, neg) == Drop(s, i, x);
        if clauses[i].premises != [] {
          DropKeeps(s, start, {x}, i, x);
        } else {
          var q := clauses[i].conclusion;
          LastPremiseForcesTrue(s, i, x);
          ok := points.SetClassification(q, true);
          if ok {
            ConcludeTrueKeeps(s, start, i, x);
            worklist := worklist + [q];
            pos' := pos' + {q};
            clauses := clauses[i := clauses[i].(satisfied := true)];
            assert clauses == ConcludeTrue(s, i, x).cs;
            assert Now(points, pos', neg) == ConcludeTrue(s, i, x);
          }
        }
      }
    }

    /** Propagates the true point `x` through the clauses of `list`. */
    method ProcessTrue(points: Sample, list: seq<nat>, x: nat, pos: set<nat>, ghost neg: set<nat>,
                       ghost start: seq<Label>)
      returns (ok: bool, pos': set<nat>)
      requires Inv(Now(points, pos, neg), start, {x})
      requires x <= |points.labels| && IsTrue(Now(points, pos, neg), x) && computeMarking
      requires forall k :: 0 <= k < |list| ==> list[k] < |clauses|
      modifies this`clauses, this`worklist, points
      ensures |points.labels| == |old(points.labels)| && pos <= pos'
      ensures ok ==> Inv(Now(points, pos', neg), start, {x})
      ensures ok ==> SameModels(old(Now(points, pos, neg)), Now(points, pos', neg))
      ensures ok ==> Advances(old(Now(points, pos, neg)), Now(points, pos', neg))
      ensures ok ==> forall k :: 0 <= k < |list| ==> Handled(Now(points, pos', neg), list[k], x)
      ensures !ok ==> forall S :: !Residual(S, old(points.labels), old(clauses))
    {
      hide Residual, TruesPending, FalsesPending, Recorded, MarkedWell, Stacked;
      ok, pos' := true, pos;
      ghost var s0 := Now(points, pos, neg);
      var k := 0;
      while k < |list| && ok
        invariant 0 <= k <= |list|
        invariant |points.labels| == |s0.labels| && pos <= pos'
        invariant ok ==> Inv(Now(points, pos', neg), start, {x}) && IsTrue(Now(points, pos', neg), x)
        invariant ok ==> SameModels(s0, Now(points, pos', neg)) && Advances(s0, Now(points, pos', neg))
        invariant ok ==> forall j :: 0 <= j < k ==> Handled(Now(points, pos', neg), list[j], x)
        invariant !ok ==> forall S :: !Residual(S, s0.labels, s0.cs)
        decreases |list| - k, ok
      {
        if !clauses[list[k]].satisfied {
          ok, pos' := PropagateTrue(points, list[k], x, pos', neg, start);
        }
        k := k + 1;
      }
    }

    /** Propagates the false point `x` through the clauses of `list`. */
    method ProcessFalse(points: Sample, list: seq<nat>, x: nat, ghost pos: set<nat>, neg: set<nat>,
                        ghost start: seq<Label>)
      returns (ok: bool, neg': set<nat>)
      requires Inv(Now(points, pos, neg), start, {x})
      requires x <= |points.labels| && IsFalse(Now(points, pos, neg), x)
      requires NoTruths(Now(points, pos, neg))
      requires forall k :: 0 <= k < |list| ==> list[k] < |clauses|
      modifies this`clauses, this`worklist, this`marks, this`computeMarking, points
      ensures ok && Inv(Now(points, pos, neg'), start, {x})
      ensures SameModels(old(Now(points, pos, neg)), Now(points, pos, neg'))
      ensures Advances(old(Now(points, pos, neg)), Now(points, pos, neg'))
      ensures forall k :: 0 <= k < |list| ==> Handled(Now(points, pos, neg'), list[k], x)
      ensures NoTruths(Now(points, pos, neg'))
    {
      hide Residual, TruesPending, FalsesPending, Recorded, MarkedWell, Stacked;
      ok, neg' := true, neg;
      ghost var s0 := Now(points, pos, neg);
      var k := 0;
      while k < |list| && ok
        invariant 0 <= k <= |list| && ok
        invariant Inv(Now(points, pos, neg'), start, {x}) && IsFalse(Now(points, pos, neg'), x)
        invariant SameModels(s0, Now(points, pos, neg')) && Advances(s0, Now(points, pos, neg'))
        invariant forall j :: 0 <= j < k ==> Handled(Now(points, pos, neg'), list[j], x)
        invariant NoTruths(Now(points, pos, neg'))
      {
        ghost var s := Now(points, pos, neg');
        if !clauses[list[k]].satisfied {
          ok, neg' := PropagateFalse(points, list[k], x, pos, neg', start);
        }
        forall j | 0 <= j < k ensures Handled(Now(points, pos, neg'), list[j], x) {
          HandledStays(s, Now(points, pos, neg'), list[j], x);
        }
        k := k + 1;
      }
    }

    /** Takes the top off the stack, together with its list of clauses. */
    method TakeTop(points: Sample, ghost pos: set<nat>, ghost neg: set<nat>, ghost start: seq<Label>)
      returns (x: nat, list: seq<nat>)
      requires Inv(Now(points, pos, neg), start, {}) && worklist != []
      modifies this`worklist, this`occurs
      ensures x == old(worklist[|worklist| - 1]) && worklist == old(worklist[..|worklist| - 1])
      ensures x <= |points.labels| && LabelOf(points.labels, x).Classified?
      ensures Inv(Now(points, pos, neg), start, {x})
      ensures list == occurs[x] && forall k :: 0 <= k < |list| ==> list[k] < |clauses|
    {
      hide Inv, LabelOf;
      ghost var s := Now(points, pos, neg);
      x := worklist[|worklist| - 1];
      PopKeeps(s, start);
      TopIndexed(s, start);
      worklist := worklist[..|worklist| - 1];
      ghost var t := Now(points, pos, neg);
      assert t == Pop(s);
      if occurs[x] != [] {
        list := RemoveSatisfied(occurs[x]);
        ReindexTop(t, start, x, list);
        occurs := occurs[x := list];
      } else {
        list := [];
      }
    }

    lemma TopIndexed(s: State, start: seq<Label>)
      requires Inv(s, start, {}) && s.work != []
      ensures var x := s.work[|s.work| - 1];
              x <= |s.labels| && LabelOf(s.labels, x).Classified? && |s.occurs| == |s.labels| + 1 &&
              forall k :: 0 <= k < |s.occurs[x]| ==> s.occurs[x][k] < |s.cs|
    {
    }

    /** Satisfied clauses need not be recorded. */
    lemma ReindexTop(s: State, start: seq<Label>, x: nat, list: seq<nat>)
      requires Inv(s, start, {x}) && x < |s.occurs| && forall k :: 0 <= k < |list| ==> list[k] < |s.cs|
      requires forall i :: i in s.occurs[x] && i < |s.cs| && !s.cs[i].satisfied ==> i in list
      ensures Inv(s.(occurs := s.occurs[x := list]), start, {x})
    {
      assert Indexed(|s.labels|, s.cs, s.occurs[x := list]);
      ReindexKeeps(s, start, {x}, s.occurs[x := list]);
    }

    /**
     Processes the top of the stack.  Only truths can fail, and false points are only learnt once no
     truth is left on the stack.
     */
    method ProcessTop(points: Sample, pos: set<nat>, neg: set<nat>, ghost start: seq<Label>)
      returns (ok: bool, pos': set<nat>, neg': set<nat>)
      requires Inv(Now(points, pos, neg), start, {}) && worklist != []
      modifies this, points
      ensures |points.labels| == |old(points.labels)|
      ensures ok ==>
                Inv(Now(points, pos', neg'), start, {}) &&
                  SameModels(old(Now(points, pos, neg)), Now(points, pos', neg'))
      ensures pos <= pos' && neg <= neg'
      ensures ok ==> Todo(points.labels, clauses) < Todo(old(points.labels), old(clauses)) ||
                     (Todo(points.labels, clauses) == Todo(old(points.labels), old(clauses)) &&
                       |worklist| < |old(worklist)|)
      ensures !ok ==> forall S :: !Residual(S, old(points.labels), old(clauses))
      ensures if old(NoTruths(Now(points, pos, neg))) then ok && NoTruths(Now(points, pos', neg')) else neg' == neg
    {
      pos', neg' := pos, neg;
      ghost var s := Now(points, pos, neg);
      var x, list := TakeTop(points, pos, neg, start);
      ghost var t := Now(points, pos, neg);
      assert NoTruths(s) <==> !IsTrue(s, x) by { TopDecides(s); }
      if LabelOf(points.labels, x) == Classified(true) {
        ok, pos' := ProcessTrue(points, list, x, pos, neg, start);
      } else {
        ok, neg' := ProcessFalse(points, list, x, pos, neg, start);
      }
      if ok {
        ProcessedKeeps(Now(points, pos', neg'), start, x);
      }
    }

    /** Works off the stack.  Fails exactly if there is no solution, and then no false label was learnt. */
    method VerifyConstraintsSatisfiability(points: Sample, pos: set<nat>, neg: set<nat>, ghost start: seq<Label>)
      returns (ok: bool, pos': set<nat>, neg': set<nat>)
      requires Inv(Now(points, pos, neg), start, {})
      modifies this, points
      ensures |points.labels| == |old(points.labels)|
      ensures ok ==> Inv(Now(points, pos', neg'), start, {}) && worklist == []
      ensures ok ==> SameModels(old(Now(points, pos, neg)), Now(points, pos', neg'))
      ensures pos <= pos' && neg <= neg'
      ensures !ok ==> neg' == neg && forall S :: !Residual(S, old(points.labels), old(clauses))
    {
      ok, pos', neg' := true, pos, neg;
      ghost var s0 := Now(points, pos, neg);
      while worklist != [] && ok
        invariant |points.labels| == |s0.labels|
        invariant ok ==> Inv(Now(points, pos', neg'), start, {}) && SameModels(s0, Now(points, pos', neg'))
        invariant pos <= pos' && neg <= neg'
        invariant ok ==> neg' == neg || NoTruths(Now(points, pos', neg'))
        invariant !ok ==> neg' == neg && forall S :: !Residual(S, s0.labels, s0.cs)
        decreases ok, Todo(points.labels, clauses), |worklist|
      {
        ok, pos', neg' := ProcessTop(points, pos', neg', start);
      }
    }

    // ---------- set-up ----------

    /** Takes the premises labelled true out, and tells whether one is labelled false. */
    method ReducePremises(points: Sample, premises: seq<nat>) returns (rest: seq<nat>, settled: bool)
      ensures Reduces(points.labels, premises, rest)
      ensures settled <==> exists p :: p in premises && LabelOf(points.labels, p) == Classified(false)
    {
      settled := false;
      var j := 0;
      while j < |premises|
        invariant 0 <= j <= |premises|
        invariant settled <==> exists k :: 0 <= k < j && LabelOf(points.labels, premises[k]) == Classified(false)
      {
        if LabelOf(points.labels, premises[j]) == Classified(false) {
          settled := true;
        }
        j := j + 1;
      }
      rest := premises;
      j := 0;
      while j < |rest|
        invariant 0 <= j <= |rest|
        invariant forall p :: p in rest ==> p in premises
        invariant forall p :: p in premises && p !in rest ==> LabelOf(points.labels, p) == Classified(true)
        invariant forall k :: 0 <= k < j ==> LabelOf(points.labels, rest[k]) != Classified(true)
        decreases |rest|, |rest| - j
      {
        if LabelOf(points.labels, rest[j]) == Classified(true) {
          WithoutAt(rest, j);
          rest := Without(rest, rest[j]);
        } else {
          j := j + 1;
        }
      }
    }

    /** Copies one constraint, unless it is settled already or yields a label. */
    method BackupConstraint(points: Sample, h: Constraint, pos: set<nat>, negative: set<nat>,
                            ghost start: seq<Label>, ghost positive: set<nat>, ghost derived: set<nat>)
      returns (ok: bool, pos': set<nat>, ghost derived': set<nat>)
      requires BackedUp(Now(points, pos, negative), start, positive, derived) && WellFormed(h, |start|)
      modifies this`clauses, this`worklist, this`constraintsWithoutConclusion, points
      ensures |points.labels| == |start| && pos <= pos'
      ensures var step := SetUpStep(old(points.labels), pos, negative, h);
              ok == step.ok && pos' == step.pos && (ok ==> points.labels == step.labels)
      ensures ok ==> BackedUp(Now(points, pos', negative), start, positive, derived')
      ensures ok ==>
                Copies(old(Now(points, pos, negative)), Now(points, pos', negative), Apply(start, positive, negative),
                  h)
      ensures !ok ==>
                forall S :: (Agrees(S, Apply(start, positive, negative)) &&
                    Residual(S, old(points.labels), old(clauses))) ==>
                                    !Satisfies(S, h)
    {
      hide Residual, Agrees, Satisfies, BackedUp, SetUpStep;
      assert |points.labels| == |start| by { BackedUpLength(Now(points, pos, negative), start, positive, derived); }
      ok, pos', derived' := true, pos, derived;
      ghost var s, goal := Now(points, pos, negative), Apply(start, positive, negative);
      var conclusion := ConclusionOf(h, |points.labels|);
      if h.conclusion.None? {
        constraintsWithoutConclusion := true;
      }
      var rest, settled := ReducePremises(points, h.premises);
      if LabelOf(points.labels, conclusion) == Classified(true) || settled {
        SkipCopies(s, goal, h);
        StepSkips(s.labels, pos, negative, h, rest);
      } else if rest == [] {
        StepForces(s.labels, pos, negative, h);
        if conclusion in negative {
          ok := points.SetClassification(conclusion, false);
        }
        ok := points.SetClassification(conclusion, true);
        if ok {
          DeriveKeeps(s, start, positive, derived, goal, h);
          pos', derived' := pos + {conclusion}, derived + {conclusion};
          assert Now(points, pos', negative) == Derive(s, conclusion);
        } else {
          assert conclusion in negative ==> LabelOf(goal, conclusion) == Classified(false) by {
            if conclusion in negative { GoalFalse(s, start, positive, derived, conclusion); }
          }
          ClashHasNoModel(s, goal, h);
        }
      } else {
        PushKeeps(s, start, positive, derived, goal, h, rest);
        StepSkips(s.labels, pos, negative, h, rest);
        if LabelOf(points.labels, conclusion) == Classified(false) {
          worklist := worklist + [conclusion];
        }
        clauses := clauses + [Clause(rest, conclusion, false)];
        assert Now(points, pos, negative) == Push(s, Clause(rest, conclusion, false));
      }
    }

    /** Copies the constraints that are not settled, and labels the conclusions that are forced at once. */
    method KeepBackup(points: Sample, constraints: seq<Constraint>, positive: set<nat>, negative: set<nat>)
      returns (ok: bool, pos: set<nat>, ghost derived: set<nat>)
      requires AllWellFormed(constraints, |points.labels|) && Compatible(points.labels, positive, negative)
      requires worklist == []
      modifies this`clauses, this`worklist, this`constraintsWithoutConclusion, points
      ensures |points.labels| == |old(points.labels)| && positive <= pos
      ensures var setUp := SetUpAll(old(points.labels), positive, negative, constraints);
              ok == setUp.ok && pos == setUp.pos
      ensures ok ==> BackedUp(Now(points, pos, negative), old(points.labels), positive, derived)
      ensures ok ==>
                CopiedTo(Now(points, pos, negative), Apply(old(points.labels), positive, negative), constraints,
                  |constraints|)
      ensures !ok ==> !Satisfiable(Apply(old(points.labels), positive, negative), constraints)
    {
      ok, pos, derived := true, positive, {};
      clauses := [];
      ghost var start, goal := points.labels, Apply(points.labels, positive, negative);
      StartBackedUp(Now(points, pos, negative), positive, constraints);
      assert constraints[0..] == constraints;
      var i := 0;
      while i < |constraints| && ok
        invariant 0 <= i <= |constraints|
        invariant |points.labels| == |start| && positive <= pos
        invariant var setUp := SetUpAll(start, positive, negative, constraints);
                  if ok then setUp == SetUpAll(points.labels, pos, negative, constraints[i..])
                      else !setUp.ok && setUp.pos == pos
        invariant ok ==> BackedUp(Now(points, pos, negative), start, positive, derived)
        invariant ok ==> CopiedTo(Now(points, pos, negative), goal, constraints, i)
        invariant !ok ==> !Satisfiable(goal, constraints)
        decreases |constraints| - i, ok
      {
        hide BackedUp, SetUpStep, SetUpAll, CopiedTo, Copies, Satisfies, Satisfiable, Residual, Agrees, Compatible;
        ghost var s := Now(points, pos, negative);
        SetUpNext(points.labels, pos, negative, constraints, i);
        ok, pos, derived := BackupConstraint(points, constraints[i], pos, negative, start, positive, derived);
        if ok {
          CopiedStep(s, Now(points, pos, negative), goal, constraints, i);
        } else {
          ClashRefutes(s, goal, constraints, i);
        }
        i := i + 1;
      }
    }

    /** Adds a clause to a point's list, at any position: the order of such a list is not specified. */
    method InsertClause(list: seq<nat>, i: nat) returns (longer: seq<nat>)
      requires forall k :: 0 <= k < |list| ==> list[k] < |clauses|
      requires i < |clauses|
      ensures forall k :: 0 <= k < |longer| ==> longer[k] < |clauses|
      ensures forall j :: j in longer <==> j in list || j == i
    {
      if i in list {
        return list;
      }
      var at: nat :| at <= |list|;
      longer := list[..at] + [i] + list[at..];
      assert list == list[..at] + list[at..];
    }

    /** Sets the initial markings and lists, for every point, the open clauses that mention it. */
    method PopulateMetaData(n: nat)
      requires Shaped(n, clauses)
      modifies this`marks, this`occurs
      ensures marks == InitialMarks(n) && Indexed(n, clauses, occurs)
    {
      marks := InitialMarks(n);
      occurs := seq(n + 1, _ => []);
      var i := 0;
      while i < |clauses|
        invariant 0 <= i <= |clauses| && |occurs| == n + 1 && marks == InitialMarks(n)
        invariant forall p, k :: 0 <= p <= n && 0 <= k < |occurs[p]| ==> occurs[p][k] < |clauses|
        invariant forall j, p: nat :: Open(clauses, j) && j < i && Mentions(clauses[j], p) && p <= n ==> j in occurs[p]
      {
        if !clauses[i].satisfied {
          var premises, conclusion := clauses[i].premises, clauses[i].conclusion;
          ghost var before := occurs;
          var list := InsertClause(occurs[conclusion], i);
          occurs := occurs[conclusion := list];
          var k := 0;
          while k < |premises|
            invariant 0 <= k <= |premises| && |occurs| == n + 1 && marks == InitialMarks(n)
            invariant forall p, k :: 0 <= p <= n && 0 <= k < |occurs[p]| ==> occurs[p][k] < |clauses|
            invariant forall p, j :: 0 <= p <= n && j in before[p] ==> j in occurs[p]
            invariant i in occurs[conclusion] && forall j :: 0 <= j < k ==> i in occurs[premises[j]]
          {
            list := InsertClause(occurs[premises[k]], i);
            occurs := occurs[premises[k] := list];
            k := k + 1;
          }
        }
        i := i + 1;
      }
    }

    /** Labels the given points and stacks them, the negative ones below the positive ones. */
    method FillWorklist(points: Sample, pos: set<nat>, neg: set<nat>, ghost full: seq<Label>)
      requires |full| == |points.labels|
      requires forall p :: 0 <= p < |full| ==>
                 points.labels[p] == full[p] || (points.labels[p].Unclassified? && (p in pos || p in neg))
      requires forall p :: p in pos ==> p < |full| && full[p] == Classified(true)
      requires forall p :: p in neg ==> p < |full| && full[p] == Classified(false)
      requires forall k :: 0 <= k < |worklist| ==>
                 worklist[k] <= |full| && LabelOf(full, worklist[k]) == Classified(false)
      modifies this`worklist, points
      ensures points.labels == full
      ensures forall p :: p in old(worklist) || p in pos || p in neg ==> p in worklist
      ensures forall k :: 0 <= k < |worklist| ==> worklist[k] <= |full| && LabelOf(full, worklist[k]).Classified?
      ensures forall j, k :: 0 <= j < k < |worklist| && LabelOf(full, worklist[j]) == Classified(true) ==>
                LabelOf(full, worklist[k]) == Classified(true)
    {
      if constraintsWithoutConclusion {
        worklist := worklist + [|points.labels|];
      }
      ghost var below := worklist;
      PushNegatives(points, pos, neg, full);
      ghost var falses := worklist;
      PushPositives(points, pos, full);
      forall p | p in falses ensures p in worklist { assert p in worklist[..|falses|]; }
      forall k | 0 <= k < |falses|
        ensures LabelOf(full, worklist[k]) == Classified(false) { assert worklist[k] == falses[k]; }
    }

    method PushNegatives(points: Sample, ghost pos: set<nat>, neg: set<nat>, ghost full: seq<Label>)
      requires |full| == |points.labels|
      requires forall p :: 0 <= p < |full| ==>
                 points.labels[p] == full[p] || (points.labels[p].Unclassified? && (p in pos || p in neg))
      requires forall p :: p in neg ==> p < |full| && full[p] == Classified(false)
      requires forall k :: 0 <= k < |worklist| ==>
                 worklist[k] <= |full| && LabelOf(full, worklist[k]) == Classified(false)
      modifies this`worklist, points
      ensures |points.labels| == |full|
      ensures forall p :: 0 <= p < |full| ==>
                points.labels[p] == full[p] || (points.labels[p].Unclassified? && p in pos)
      ensures forall k :: 0 <= k < |worklist| ==>
                worklist[k] <= |full| && LabelOf(full, worklist[k]) == Classified(false)
      ensures forall p :: p in old(worklist) || p in neg ==> p in worklist
    {
      var todo := neg;
      while todo != {}
        invariant todo <= neg && |points.labels| == |full|
        invariant forall p :: 0 <= p < |full| ==>
                    points.labels[p] == full[p] || (points.labels[p].Unclassified? && (p in pos || p in todo))
        invariant forall k :: 0 <= k < |worklist| ==>
                    worklist[k] <= |full| && LabelOf(full, worklist[k]) == Classified(false)
        invariant forall p :: p in old(worklist) || p in neg ==> p in worklist || p in todo
        decreases todo
      {
        var p :| p in todo;
        todo := todo - {p};
        var _ := points.SetClassification(p, false);
        worklist := worklist + [p];
      }
    }

    method PushPositives(points: Sample, pos: set<nat>, ghost full: seq<Label>)
      requires |full| == |points.labels|
      requires forall p :: 0 <= p < |full| ==>
                 points.labels[p] == full[p] || (points.labels[p].Unclassified? && p in pos)
      requires forall p :: p in pos ==> p < |full| && full[p] == Classified(true)
      modifies this`worklist, points
      ensures points.labels == full
      ensures |old(worklist)| <= |worklist| && worklist[..|old(worklist)|] == old(worklist)
      ensures forall k :: |old(worklist)| <= k < |worklist| ==>
                worklist[k] < |full| && full[worklist[k]] == Classified(true)
      ensures forall p :: p in pos ==> p in worklist
    {
      var todo := pos;
      while todo != {}
        invariant todo <= pos && |points.labels| == |full|
        invariant forall p :: 0 <= p < |full| ==>
                    points.labels[p] == full[p] || (points.labels[p].Unclassified? && p in todo)
        invariant |old(worklist)| <= |worklist| && worklist[..|old(worklist)|] == old(worklist)
        invariant forall k :: |old(worklist)| <= k < |worklist| ==>
                    worklist[k] < |full| && full[worklist[k]] == Classified(true)
        invariant forall p :: p in pos ==> p in worklist || p in todo
        decreases todo
      {
        var p :| p in todo;
        todo := todo - {p};
        var _ := points.SetClassification(p, true);
        worklist := worklist + [p];
      }
    }

    /** Restores the labels and clears what was kept for this call. */
    method RollBack(points: Sample, copy: seq<Label>)
      requires |points.labels| == |copy|
      modifies this, points
      ensures points.labels == copy
    {
      var i := 0;
      while i < |copy|
        invariant 0 <= i <= |copy| == |points.labels|
        invariant points.labels[..i] == copy[..i]
      {
        points.labels := points.labels[i := copy[i]];
        i := i + 1;
      }
      clauses, occurs, marks, computeMarking, constraintsWithoutConclusion := [], [], [], true, false;
    }

    /**
     Decides whether the labels, extended by the given points, can be completed to a labelling that
     satisfies the constraints.  If so, it adds the points all completions agree on, and the enlarged
     labels are closed; otherwise `negative` is as given (while `positive` may have grown).
     The labels themselves are restored.
     */
    method Solve(points: Sample, constraints: seq<Constraint>, positive: set<nat>, negative: set<nat>)
      returns (ok: bool, pos: set<nat>, neg: set<nat>)
      requires AllWellFormed(constraints, |points.labels|) && Compatible(points.labels, positive, negative)
      modifies this, points
      ensures points.labels == old(points.labels)
      ensures ok <==> Satisfiable(Apply(points.labels, positive, negative), constraints)
      ensures positive <= pos && negative <= neg
      ensures ok ==> Compatible(points.labels, pos, neg)
      ensures ok ==> Closed(Apply(points.labels, pos, neg), constraints)
      ensures ok ==> forall S :: Model(S, Apply(points.labels, positive, negative), constraints) <==>
                                 Model(S, Apply(points.labels, pos, neg), constraints)
      ensures !ok ==> neg == negative
      ensures var setUp := SetUpAll(points.labels, positive, negative, constraints);
              setUp.pos <= pos && (!setUp.ok ==> !ok && pos == setUp.pos)
    {
      computeMarking, constraintsWithoutConclusion := true, false;
      worklist := [];
      neg := negative;
      var copy := points.labels;
      ghost var derived;
      ok, pos, derived := KeepBackup(points, constraints, positive, negative);
      if ok {
        ok, pos, neg := Run(points, constraints, pos, negative, copy, positive, derived);
      }
      RollBack(points, copy);
    }

    /** The part of `Solve` after the set-up. */
    method Run(points: Sample, ghost constraints: seq<Constraint>, pos: set<nat>, neg: set<nat>,
               ghost start: seq<Label>, ghost positive: set<nat>, ghost derived: set<nat>)
      returns (ok: bool, pos': set<nat>, neg': set<nat>)
      requires BackedUp(Now(points, pos, neg), start, positive, derived) && computeMarking
      requires CopiedTo(Now(points, pos, neg), Apply(start, positive, neg), constraints, |constraints|)
      modifies this, points
      ensures |points.labels| == |start|
      ensures ok <==> Satisfiable(Apply(start, positive, neg), constraints)
      ensures pos <= pos' && neg <= neg'
      ensures ok ==> Compatible(start, pos', neg')
      ensures ok ==> Closed(Apply(start, pos', neg'), constraints)
      ensures ok ==> forall S :: Model(S, Apply(start, positive, neg), constraints) <==>
                Model(S, Apply(start, pos', neg'), constraints)
      ensures !ok ==> neg' == neg
    {
      ghost var s := Now(points, pos, neg);
      ghost var goal, full := Apply(start, positive, neg), Apply(start, pos, neg);
      SetupModels(s, start, positive, derived, constraints);
      PopulateMetaData(|points.labels|);
      FillWorklist(points, pos, neg, full);
      ghost var t := Now(points, pos, neg);
      FilledInv(s, start, positive, derived, t);
      ok, pos', neg' := VerifyConstraintsSatisfiability(points, pos, neg, start);
      if ok {
        ExhaustedClosed(Now(points, pos', neg'), start, goal, constraints);
      }
    }
  }
}
