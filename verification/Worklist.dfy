/**
 The invariant of the solver's worklist loop, and the three kinds of step that keep it: settling a
 clause, dropping a true premise, and learning a classification.
 */
module Worklist {
  import opened Horn
  import opened Clauses

  /** A snapshot of the solver while it works. */
  datatype State = State(
    labels: seq<Label>,        // of the data points
    cs: seq<Clause>,           // working copies of the constraints
    occurs: seq<seq<nat>>,     // per point, the clauses that mention it
    work: seq<nat>,            // the worklist, a stack whose top is its last element
    marked: bool,              // whether the markings have been computed
    marks: seq<set<nat>>,      // the markings
    pos: set<nat>,             // points labelled true so far
    neg: set<nat>)             // points labelled false so far

  predicate IsTrue(s: State, p: nat) { LabelOf(s.labels, p) == Classified(true) }

  predicate IsFalse(s: State, p: nat) { LabelOf(s.labels, p) == Classified(false) }

  function Settle(s: State, i: nat): State
    requires i < |s.cs|
  {
    s.(cs := s.cs[i := s.cs[i].(satisfied := true)])
  }

  function Without(v: seq<nat>, q: nat): (r: seq<nat>)
    ensures forall p :: p in r <==> p in v && p != q
    ensures |r| <= |v|
  {
    if v == [] then []
    else if v[0] == q then Without(v[1..], q)
    else [v[0]] + Without(v[1..], q)
  }

  /** Removing a value from its first position on leaves what is in front of it. */
  lemma WithoutAt(v: seq<nat>, j: nat)
    requires j < |v| && forall k :: 0 <= k < j ==> v[k] != v[j]
    ensures j <= |Without(v, v[j])| < |v| && Without(v, v[j])[..j] == v[..j]
  {
    if j > 0 {
      WithoutAt(v[1..], j - 1);
      assert v[..j] == [v[0]] + v[1..][..j - 1];
    }
  }

  function Drop(s: State, i: nat, q: nat): State
    requires i < |s.cs|
  {
    s.(cs := s.cs[i := s.cs[i].(premises := Without(s.cs[i].premises, q))])
  }

  function Learn(s: State, q: nat, v: bool): State
    requires q < |s.labels|
  {
    s.(labels := s.labels[q := Classified(v)],
       work := s.work + [q],
       pos := if v then s.pos + {q} else s.pos,
       neg := if v then s.neg else s.neg + {q})
  }

  // ---------- the invariant ----------

  ghost predicate NoTruths(s: State) {
    forall k :: 0 <= k < |s.work| ==> !IsTrue(s, s.work[k])
  }

  /** Truths lie on top of the stack; once there are markings, no truth is left on it. */
  ghost predicate Stacked(s: State) {
    && (forall k :: 0 <= k < |s.work| ==> s.work[k] <= |s.labels| && LabelOf(s.labels, s.work[k]).Classified?)
    && (forall j, k :: 0 <= j < k < |s.work| && IsTrue(s, s.work[j]) ==> IsTrue(s, s.work[k]))
    && (s.marked ==> NoTruths(s))
  }

  /** A true point that an open clause still mentions waits on the stack or is being processed (`x`). */
  ghost predicate TruesPending(s: State, x: set<nat>) {
    forall i, p: nat :: Open(s.cs, i) && Mentions(s.cs[i], p) && IsTrue(s, p) ==> p in s.work || p in x
  }

  ghost predicate MarksFalse(s: State, p: nat) {
    p < |s.marks| && forall m :: m in s.marks[p] ==> m == p || IsFalse(s, m)
  }

  /** A processed false point is a premise of no open clause; if it is a conclusion, all its marks are false. */
  ghost predicate FalsesPending(s: State, x: set<nat>) {
    forall i, p: nat :: Open(s.cs, i) && Mentions(s.cs[i], p) && IsFalse(s, p) && p !in s.work && p !in x ==>
      s.marked && p !in s.cs[i].premises && MarksFalse(s, p)
  }

  ghost predicate MarkedWell(s: State)
    requires Shaped(|s.labels|, s.cs)
  {
    && MarkShape(|s.labels|, s.marks)
    && AllMarkClosed(|s.labels|, s.cs, s.marks)
    && (forall d, m :: 0 <= d < |s.marks| && m in s.marks[d] && m != d ==> !IsTrue(s, m))
    && (forall S, d, m :: Residual(S, s.labels, s.cs) && 0 <= d < |s.marks| && m in s.marks[d] && m in S ==> d in S)
  }

  ghost predicate Recorded(s: State, start: seq<Label>) {
    Compatible(start, s.pos, s.neg) && s.labels == Apply(start, s.pos, s.neg)
  }

  ghost predicate Inv(s: State, start: seq<Label>, x: set<nat>) {
    && Shaped(|s.labels|, s.cs)
    && Indexed(|s.labels|, s.cs, s.occurs)
    && Recorded(s, start)
    && Stacked(s)
    && TruesPending(s, x)
    && FalsesPending(s, x)
    && (if s.marked then MarkedWell(s) else s.marks == InitialMarks(|s.labels|))
  }

  /** Both snapshots leave the same problem to solve. */
  ghost predicate SameModels(s: State, t: State) {
    forall S :: Residual(S, s.labels, s.cs) <==> Residual(S, t.labels, t.cs)
  }

  /** Progress of a run: labels grow, clauses settle, and whatever is pushed is paid for. */
  ghost predicate Advances(s: State, t: State) {
    && Grows(s.labels, t.labels)
    && Settles(s.cs, t.cs)
    && s.occurs == t.occurs
    && Todo(t.labels, t.cs) <= Todo(s.labels, s.cs)
    && (t.work != s.work ==> Todo(t.labels, t.cs) < Todo(s.labels, s.cs))
    && s.pos <= t.pos && s.neg <= t.neg
  }

  // ---------- settling a clause ----------

  lemma SettleSame(s: State, i: nat)
    requires Open(s.cs, i)
    requires IsTrue(s, s.cs[i].conclusion) || exists p :: p in s.cs[i].premises && IsFalse(s, p)
    ensures SameModels(s, Settle(s, i))
  {
    var t := Settle(s, i);
    forall S ensures Residual(S, s.labels, s.cs) <==> Residual(S, t.labels, t.cs) {
      if Residual(S, s.labels, s.cs) {
        forall j | Open(t.cs, j) ensures Respects(S, t.cs[j]) { assert Open(s.cs, j); }
      }
      if Residual(S, t.labels, t.cs) {
        forall j | Open(s.cs, j) ensures Respects(S, s.cs[j]) {
          if j != i { assert Open(t.cs, j); }
        }
      }
    }
  }

  lemma SettleKeeps(s: State, start: seq<Label>, x: set<nat>, i: nat)
    requires Inv(s, start, x) && Open(s.cs, i)
    requires IsTrue(s, s.cs[i].conclusion) || exists p :: p in s.cs[i].premises && IsFalse(s, p)
    ensures Inv(Settle(s, i), start, x)
    ensures SameModels(s, Settle(s, i))
    ensures Advances(s, Settle(s, i))
  {
    var t := Settle(s, i);
    SettleSame(s, i);
    assert forall j :: Open(t.cs, j) ==> Open(s.cs, j) && t.cs[j] == s.cs[j];
    TodoShrinks(s.labels, s.cs, t.labels, t.cs);
    assert forall p :: IsTrue(t, p) == IsTrue(s, p) && IsFalse(t, p) == IsFalse(s, p);
    assert forall p :: MarksFalse(s, p) ==> MarksFalse(t, p);
  }

  // ---------- dropping a true premise ----------

  lemma DropSame(s: State, i: nat, q: nat)
    requires i < |s.cs| && IsTrue(s, q)
    ensures SameModels(s, Drop(s, i, q))
  {
    var t := Drop(s, i, q);
    forall S ensures Residual(S, s.labels, s.cs) <==> Residual(S, t.labels, t.cs) {
      if Agrees(S, s.labels) {
        assert q in S;
        assert Respects(S, s.cs[i]) <==> Respects(S, t.cs[i]);
        assert forall j :: Open(s.cs, j) <==> Open(t.cs, j);
        assert forall j :: 0 <= j < |s.cs| && j != i ==> t.cs[j] == s.cs[j];
      }
    }
  }

  lemma DropShaped(s: State, i: nat, q: nat)
    requires Shaped(|s.labels|, s.cs) && Indexed(|s.labels|, s.cs, s.occurs) && i < |s.cs|
    requires Open(s.cs, i) ==> Without(s.cs[i].premises, q) != []
    ensures Shaped(|s.labels|, Drop(s, i, q).cs) && Indexed(|s.labels|, Drop(s, i, q).cs, s.occurs)
    ensures Settles(s.cs, Drop(s, i, q).cs)
  {
    var t := Drop(s, i, q);
    forall k | 0 <= k < |t.cs[i].premises| ensures t.cs[i].premises[k] < |s.labels| {
      assert t.cs[i].premises[k] in s.cs[i].premises;
    }
    assert forall j, p: nat :: Open(t.cs, j) && Mentions(t.cs[j], p) ==> Open(s.cs, j) && Mentions(s.cs[j], p);
  }

  lemma DropPending(s: State, x: set<nat>, i: nat, q: nat)
    requires TruesPending(s, x) && FalsesPending(s, x) && i < |s.cs| && !s.marked
    ensures TruesPending(Drop(s, i, q), x) && FalsesPending(Drop(s, i, q), x)
  {
    var t := Drop(s, i, q);
    assert forall j, p: nat :: Open(t.cs, j) && Mentions(t.cs[j], p) ==> Open(s.cs, j) && Mentions(s.cs[j], p);
    assert forall p :: IsTrue(t, p) == IsTrue(s, p) && IsFalse(t, p) == IsFalse(s, p);
  }

  lemma DropKeeps(s: State, start: seq<Label>, x: set<nat>, i: nat, q: nat)
    requires Inv(s, start, x) && i < |s.cs| && IsTrue(s, q) && !s.marked
    requires Open(s.cs, i) ==> Without(s.cs[i].premises, q) != []
    ensures Inv(Drop(s, i, q), start, x)
    ensures SameModels(s, Drop(s, i, q))
    ensures Advances(s, Drop(s, i, q))
  {
    var t := Drop(s, i, q);
    DropSame(s, i, q);
    DropShaped(s, i, q);
    DropPending(s, x, i, q);
    TodoShrinks(s.labels, s.cs, t.labels, t.cs);
    assert forall p :: IsTrue(t, p) == IsTrue(s, p);
  }

  // ---------- learning a classification ----------

  lemma LearnRecorded(s: State, start: seq<Label>, q: nat, v: bool)
    requires Recorded(s, start) && q < |s.labels|
    requires s.labels[q].Classified? ==> s.labels[q].value == v
    ensures Recorded(Learn(s, q, v), start)
    ensures Grows(s.labels, Learn(s, q, v).labels)
  {
    assert s.labels[q] == Apply(start, s.pos, s.neg)[q];
  }

  lemma LearnSame(s: State, q: nat, v: bool)
    requires q < |s.labels|
    requires s.labels[q].Classified? ==> s.labels[q].value == v
    requires forall S :: Residual(S, s.labels, s.cs) ==> (q in S <==> v)
    ensures SameModels(s, Learn(s, q, v))
  {
    var t := Learn(s, q, v);
    forall S ensures Residual(S, s.labels, s.cs) <==> Residual(S, t.labels, t.cs) {
      if Residual(S, s.labels, s.cs) {
        forall p: nat | LabelOf(t.labels, p).Classified? ensures p in S <==> LabelOf(t.labels, p).value {
          if p != q { assert LabelOf(s.labels, p) == LabelOf(t.labels, p); }
        }
      }
      if Residual(S, t.labels, t.cs) {
        forall p: nat | LabelOf(s.labels, p).Classified? ensures p in S <==> LabelOf(s.labels, p).value {
          assert LabelOf(s.labels, p) == LabelOf(t.labels, p);
        }
      }
    }
  }

  lemma LearnStacked(s: State, q: nat, v: bool)
    requires Stacked(s) && q < |s.labels|
    requires s.labels[q].Classified? ==> s.labels[q].value == v
    requires if v then !s.marked else NoTruths(s)
    ensures Stacked(Learn(s, q, v))
  {
    var t := Learn(s, q, v);
    assert forall p: nat :: p != q ==> LabelOf(t.labels, p) == LabelOf(s.labels, p);
    assert !v ==> forall p :: IsTrue(t, p) ==> IsTrue(s, p);
  }

  lemma LearnPending(s: State, x: set<nat>, q: nat, v: bool)
    requires TruesPending(s, x) && FalsesPending(s, x) && q < |s.labels|
    requires s.labels[q].Classified? ==> s.labels[q].value == v
    ensures TruesPending(Learn(s, q, v), x) && FalsesPending(Learn(s, q, v), x)
  {
    var t := Learn(s, q, v);
    assert forall p: nat :: p != q ==> LabelOf(t.labels, p) == LabelOf(s.labels, p);
    assert forall p :: p in s.work ==> p in t.work;
    assert t.work[|s.work|] == q;
    forall p: nat | MarksFalse(s, p) ensures MarksFalse(t, p) {
      forall m | m in t.marks[p] && m != p ensures IsFalse(t, m) { assert IsFalse(s, m); }
    }
  }

  lemma LearnKeeps(s: State, start: seq<Label>, x: set<nat>, q: nat, v: bool)
    requires Inv(s, start, x) && q < |s.labels|
    requires s.labels[q].Classified? ==> s.labels[q].value == v
    requires forall S :: Residual(S, s.labels, s.cs) ==> (q in S <==> v)
    requires if v then !s.marked else NoTruths(s)
    ensures Inv(Learn(s, q, v), start, x)
    ensures SameModels(s, Learn(s, q, v))
  {
    LearnRecorded(s, start, q, v);
    LearnSame(s, q, v);
    LearnStacked(s, q, v);
    LearnPending(s, x, q, v);
    if s.marked {
      assert forall p :: IsTrue(Learn(s, q, v), p) ==> IsTrue(s, p);
    }
  }

  // ---------- the other steps of the loop ----------

  function Pop(s: State): State
    requires s.work != []
  {
    s.(work := s.work[..|s.work| - 1])
  }

  lemma PopKeeps(s: State, start: seq<Label>)
    requires Inv(s, start, {}) && s.work != []
    ensures Inv(Pop(s), start, {s.work[|s.work| - 1]})
    ensures SameModels(s, Pop(s))
  {
    var t, x := Pop(s), s.work[|s.work| - 1];
    assert s.work == t.work + [x];
    assert forall p :: IsTrue(t, p) == IsTrue(s, p) && IsFalse(t, p) == IsFalse(s, p);
    assert forall p :: MarksFalse(s, p) ==> MarksFalse(t, p);
  }

  /** The top of the stack tells whether truths are left on it. */
  lemma TopDecides(s: State)
    requires Stacked(s) && s.work != []
    ensures NoTruths(s) <==> !IsTrue(s, s.work[|s.work| - 1])
  {
  }

  /** What processing a point achieves for one clause. */
  ghost predicate Handled(s: State, i: nat, x: nat) {
    Open(s.cs, i) ==>
      if IsTrue(s, x) then !Mentions(s.cs[i], x)
      else x !in s.cs[i].premises && (x == s.cs[i].conclusion ==> s.marked && MarksFalse(s, x))
  }

  lemma HandledStays(s: State, t: State, i: nat, x: nat)
    requires IsFalse(s, x) && Handled(s, i, x)
    requires Grows(s.labels, t.labels) && Settles(s.cs, t.cs)
    requires s.marked ==> t.marked && t.marks == s.marks
    requires (i < |s.cs| ==> t.cs[i] == s.cs[i]) || Handled(t, i, x)
    ensures Handled(t, i, x)
  {
    assert forall p: nat :: IsFalse(s, p) ==> IsFalse(t, p);
  }

  lemma ProcessedKeeps(s: State, start: seq<Label>, x: nat)
    requires Inv(s, start, {x}) && x <= |s.labels| && LabelOf(s.labels, x).Classified?
    requires forall i :: i in s.occurs[x] ==> Handled(s, i, x)
    ensures Inv(s, start, {})
  {
    forall i | Open(s.cs, i) && Mentions(s.cs[i], x) ensures Handled(s, i, x) {
      assert i in s.occurs[x];
    }
  }

  /** The lists of clauses may lose clauses that are no longer open. */
  lemma ReindexKeeps(s: State, start: seq<Label>, x: set<nat>, occurs: seq<seq<nat>>)
    requires Inv(s, start, x) && Indexed(|s.labels|, s.cs, occurs)
    ensures Inv(s.(occurs := occurs), start, x)
  {
    var t := s.(occurs := occurs);
    assert forall p :: IsTrue(t, p) == IsTrue(s, p) && IsFalse(t, p) == IsFalse(s, p);
    assert forall p :: MarksFalse(s, p) ==> MarksFalse(t, p);
  }

  /** A point true in no clause's premises derives only itself. */
  lemma UnmentionedDerivesItself(n: nat, cs: seq<Clause>, m: nat, d: nat)
    requires Shaped(n, cs) && Derives(cs, m, d)
    requires forall i :: Open(cs, i) ==> m !in cs[i].premises
    ensures d == m
  {
    var X := {m};
    forall i | Open(cs, i) ensures Respects(X, cs[i]) { assert cs[i].premises[0] in cs[i].premises; }
    assert ClosedUnder(X, cs);
  }

  /** Markings computed once no truth is left on the stack keep the invariant. */
  lemma MarkKeeps(s: State, start: seq<Label>, x: nat, marks: seq<set<nat>>)
    requires Inv(s, start, {x}) && !s.marked && IsFalse(s, x)
    requires NoTruths(s)
    requires MarkShape(|s.labels|, marks) && AllMarkClosed(|s.labels|, s.cs, marks) && MarksSound(s.cs, marks)
    ensures Inv(s.(marks := marks, marked := true), start, {x})
  {
    var t := s.(marks := marks, marked := true);
    assert forall p :: IsTrue(t, p) == IsTrue(s, p) && IsFalse(t, p) == IsFalse(s, p);
    forall d, m | 0 <= d < |marks| && m in marks[d] && m != d ensures !IsTrue(s, m) {
      if IsTrue(s, m) {
        assert Derives(s.cs, m, d);
        UnmentionedDerivesItself(|s.labels|, s.cs, m, d);
      }
    }
    forall S, d, m | Residual(S, t.labels, t.cs) && 0 <= d < |marks| && m in marks[d] && m in S ensures d in S {
      assert Derives(s.cs, m, d) && ClosedUnder(S, s.cs);
    }
  }

  // ---------- a clause with a single premise left ----------

  /** The state after the last premise `x` of clause `i` turned out true. */
  function ConcludeTrue(s: State, i: nat, x: nat): State
    requires i < |s.cs| && s.cs[i].conclusion < |s.labels|
  {
    Drop(Settle(Learn(s, s.cs[i].conclusion, true), i), i, x)
  }

  lemma LastPremiseForcesTrue(s: State, i: nat, x: nat)
    requires Open(s.cs, i) && IsTrue(s, x) && Without(s.cs[i].premises, x) == []
    ensures forall S :: Residual(S, s.labels, s.cs) ==> s.cs[i].conclusion in S
    ensures IsFalse(s, s.cs[i].conclusion) ==> forall S :: !Residual(S, s.labels, s.cs)
  {
    var c := s.cs[i];
    forall S | Residual(S, s.labels, s.cs) ensures c.conclusion in S && !IsFalse(s, c.conclusion) {
      assert x in S;
      forall p | p in c.premises ensures p in S { assert p !in Without(c.premises, x); }
      assert Respects(S, c);
    }
  }

  lemma ConcludeTrueKeeps(s: State, start: seq<Label>, i: nat, x: nat)
    requires Inv(s, start, {x}) && Open(s.cs, i) && IsTrue(s, x) && !s.marked
    requires s.cs[i].conclusion != x && Without(s.cs[i].premises, x) == [] && !IsFalse(s, s.cs[i].conclusion)
    ensures s.cs[i].conclusion < |s.labels|
    ensures var t := ConcludeTrue(s, i, x);
            Inv(t, start, {x}) && SameModels(s, t) && Advances(s, t) && !Open(t.cs, i)
  {
    var q := s.cs[i].conclusion;
    LastPremiseForcesTrue(s, i, x);
    LearnKeeps(s, start, {x}, q, true);
    var t := Learn(s, q, true);
    SettleKeeps(t, start, {x}, i);
    DropKeeps(Settle(t, i), start, {x}, i, x);
    var u := ConcludeTrue(s, i, x);
    LearnRecorded(s, start, q, true);
    TodoShrinks(s.labels, s.cs, u.labels, u.cs);
  }

  function ConcludeFalse(s: State, i: nat): State
    requires i < |s.cs| && |s.cs[i].premises| == 1 && s.cs[i].premises[0] < |s.labels|
  {
    Settle(Learn(s, s.cs[i].premises[0], false), i)
  }

  lemma ConcludeFalseKeeps(s: State, start: seq<Label>, x: nat, i: nat)
    requires Inv(s, start, {x}) && Open(s.cs, i) && |s.cs[i].premises| == 1
    requires IsFalse(s, x) && s.cs[i].conclusion == x && x != s.cs[i].premises[0]
    requires NoTruths(s)
    ensures s.cs[i].premises[0] < |s.labels| && !IsTrue(s, s.cs[i].premises[0])
    ensures var t := ConcludeFalse(s, i);
            Inv(t, start, {x}) && SameModels(s, t) && Advances(s, t) && !Open(t.cs, i) && NoTruths(t)
  {
    var q := s.cs[i].premises[0];
    assert Mentions(s.cs[i], q);
    assert IsTrue(s, q) ==> q in s.work;
    forall S | Residual(S, s.labels, s.cs) ensures q !in S {
      assert Respects(S, s.cs[i]) && LabelOf(s.labels, x).Classified?;
    }
    LearnKeeps(s, start, {x}, q, false);
    var t := Learn(s, q, false);
    assert q in t.cs[i].premises && IsFalse(t, q);
    assert forall p :: IsTrue(t, p) ==> IsTrue(s, p);
    SettleKeeps(t, start, {x}, i);
    LearnRecorded(s, start, q, false);
    TodoShrinks(s.labels, s.cs, t.labels, Settle(t, i).cs);
  }

  /** A mark of a processed false point is false in every solution; learning that keeps the invariant. */
  lemma FalsifyKeeps(s: State, start: seq<Label>, x: nat, m: nat)
    requires Inv(s, start, {x}) && s.marked && x <= |s.labels| && IsFalse(s, x)
    requires m in s.marks[x] && m != x && !IsFalse(s, m)
    ensures m < |s.labels| && s.labels[m].Unclassified?
    ensures var t := Learn(s, m, false);
            Inv(t, start, {x}) && SameModels(s, t) && Advances(s, t)
  {
    assert !IsTrue(s, m) && LabelOf(s.labels, m) == s.labels[m];
    forall S | Residual(S, s.labels, s.cs) ensures m !in S {
      assert Agrees(S, s.labels) && LabelOf(s.labels, x).Classified?;
    }
    LearnKeeps(s, start, {x}, m, false);
    LearnRecorded(s, start, m, false);
    TodoShrinks(s.labels, s.cs, Learn(s, m, false).labels, s.cs);
  }

  // ---------- when the stack is empty ----------

  /** Making every unclassified point false solves what is left. */
  lemma ExhaustedFalse(s: State, start: seq<Label>)
    requires Inv(s, start, {}) && s.work == []
    ensures Residual(TrueSet(s.labels), s.labels, s.cs)
  {
    var S := TrueSet(s.labels);
    forall i | Open(s.cs, i) ensures Respects(S, s.cs[i]) {
      var p := s.cs[i].premises[0];
      assert Mentions(s.cs[i], p);
      assert !IsTrue(s, p);
    }
  }

  /**
   Making one unclassified point `m` true can be completed: by what `m` marks if there are markings,
   and by all unclassified points otherwise.  The markings were computed for the clauses open at that
   time; that is enough for the clauses that are still open.
   */
  lemma ExhaustedTrue(s: State, start: seq<Label>, m: nat) returns (S: set<nat>)
    requires Inv(s, start, {}) && s.work == []
    requires m < |s.labels| && s.labels[m].Unclassified?
    ensures Residual(S, s.labels, s.cs) && m in S
  {
    var D := set d | 0 <= d < |s.labels| && s.labels[d].Unclassified? && (s.marked ==> m in s.marks[d]);
    S := TrueSet(s.labels) + D;
    forall i | Open(s.cs, i) && forall p :: p in s.cs[i].premises ==> p in S ensures s.cs[i].conclusion in S {
      var c := s.cs[i];
      forall p | p in c.premises ensures p in D {
        assert Mentions(c, p) && !IsTrue(s, p);
      }
      assert Mentions(c, c.conclusion) && !IsTrue(s, c.conclusion);
      if s.marked {
        assert CommonMark(s.marks, c.premises, m);
        assert m in s.marks[c.conclusion];
        assert IsFalse(s, c.conclusion) ==> MarksFalse(s, c.conclusion);
      } else {
        assert !IsFalse(s, c.conclusion);
      }
    }
  }
}
