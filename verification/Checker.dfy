/**
 Checking a constrained Horn clause: its predicates are replaced by their conjectures, a solver looks for
 an assignment that makes the result false, and a counterexample is read off the assignment.
 */
module Checker {
  import opened Horn
  import opened Encoding
  import opened Translation
  import opened LearnerInterface
  import S = Substitute

  /**
   A CHC: the whole expression, the relations it mentions, and their applications in its premises and in
   its conclusion.
   */
  datatype Chc = Chc(expr: S.Expr, predicates: set<nat>, lhs: seq<S.Expr>, rhs: seq<S.Expr>)

  /** Values for the constants of a CHC. */
  type Assignment = nat -> int

  // ---------- truth values and points ----------

  /** The library's truth values as numbers. */
  function TruthValue(b: bool): int {
    ToInt(BoolValue(b))
  }

  function FromInt(sort: Sort, n: int): Value {
    if sort == IntSort then IntValue(n) else BoolValue(n == 1)
  }

  function FromInts(sorts: seq<Sort>, args: seq<int>): (values: seq<Value>)
    requires |sorts| == |args|
    ensures SortsOf(values) == sorts && forall i :: 0 <= i < |values| ==> values[i] == FromInt(sorts[i], args[i])
  {
    var values := seq(|sorts|, i requires 0 <= i < |sorts| => FromInt(sorts[i], args[i]));
    assert SortsOf(values) == sorts;
    values
  }

  /** The interpretation that an assignment, an interpretation of the relations and a background theory make up. */
  function World(theory: S.Interpretation, relations: seq<seq<Sort>>, m: Assignment,
                 P: Point -> bool): S.Interpretation {
    (d: S.Decl, args: seq<int>) =>
      if d.Constant? && args == [] then m(d.c)
      else if d.Predicate? && d.f < |relations| && |relations[d.f]| == |args| then
        TruthValue(P(Point(d.f, FromInts(relations[d.f], args))))
      else theory(d, args)
  }

  function Nowhere(): Point -> bool {
    (_: Point) => false
  }

  predicate IsTrue(e: S.Expr, I: S.Interpretation) {
    S.Eval(e, I) == 1
  }

  /** Symbols of formulas have their usual meaning. */
  ghost predicate Standard(theory: S.Interpretation) {
    && theory(S.Builtin(S.True), []) == 1 && theory(S.Builtin(S.False), []) == -1
    && (forall n :: theory(S.Number(n), []) == n)
    && (forall a :: theory(S.Builtin(S.Not), [a]) == TruthValue(a != 1))
    && (forall a, b :: theory(S.Builtin(S.And), [a, b]) == TruthValue(a == 1 && b == 1))
    && (forall a, b :: theory(S.Builtin(S.Or), [a, b]) == TruthValue(a == 1 || b == 1))
    && (forall a, b :: theory(S.Builtin(S.AtMost), [a, b]) == TruthValue(a <= b))
    && (forall a, b :: theory(S.Builtin(S.MoreThan), [a, b]) == TruthValue(a > b))
    && (forall a, b :: theory(S.Builtin(S.Plus), [a, b]) == a + b)
    && (forall a, b :: theory(S.Builtin(S.Minus), [a, b]) == a - b)
  }

  // ---------- conjectures as expressions ----------

  function Leaf(symbol: S.Symbol): S.Expr {
    S.App(S.Builtin(symbol), [])
  }

  function Literal(n: int): S.Expr {
    S.App(S.Number(n), [])
  }

  function Argument(f: nat, i: nat): S.Expr {
    S.App(S.Variable(f, i), [])
  }

  function Apply2(symbol: S.Symbol, a: S.Expr, b: S.Expr): S.Expr {
    S.App(S.Builtin(symbol), [a, b])
  }

  function TermExpr(term: Term, f: nat, sorts: seq<Sort>): S.Expr {
    if !FitsArity(term, sorts) then Literal(0)
    else
      match term
      case Argument(i) => Argument(f, i)
      case Sum(i, j) => Apply2(S.Plus, Argument(f, i), Argument(f, j))
      case Difference(i, j) => Apply2(S.Minus, Argument(f, i), Argument(f, j))
  }

  /**
   Is the value of the term a number in its expression?  Comparisons of other terms do not occur in translated
   trees.
   */
  predicate Numeric(term: Term, sorts: seq<Sort>) {
    !(term.Argument? && term.i < |sorts| && sorts[term.i] == BoolSort)
  }

  /** `value <= threshold` for the values 1 and -1 of a Boolean. */
  function TruthAtMost(e: S.Expr, threshold: int): S.Expr {
    if threshold >= 1 then Leaf(S.True) else if threshold >= -1 then S.App(S.Builtin(S.Not), [e]) else Leaf(S.False)
  }

  function FormulaExpr(formula: Formula, f: nat, sorts: seq<Sort>): S.Expr {
    match formula
    case Const(value) => Leaf(if value then S.True else S.False)
    case AtMost(a, threshold) =>
      var e := TermExpr(a.term, f, sorts);
      if Numeric(a.term, sorts) then Apply2(S.AtMost, e, Literal(threshold)) else TruthAtMost(e, threshold)
    case MoreThan(a, threshold) =>
      var e := TermExpr(a.term, f, sorts);
      if Numeric(a.term, sorts) then Apply2(S.MoreThan, e, Literal(threshold))
      else S.App(S.Builtin(S.Not), [TruthAtMost(e, threshold)])
    case Truth(a, constant) => Apply2(S.And, TermExpr(a.term, f, sorts), Leaf(if constant then S.True else S.False))
    case And(l, r) => Apply2(S.And, FormulaExpr(l, f, sorts), FormulaExpr(r, f, sorts))
    case Or(l, r) => Apply2(S.Or, FormulaExpr(l, f, sorts), FormulaExpr(r, f, sorts))
  }

  function Variables(f: nat, n: nat): (variables: seq<S.Decl>)
    ensures |variables| == n && forall i :: 0 <= i < n ==> variables[i] == S.Variable(f, i)
  {
    seq(n, i requires 0 <= i => S.Variable(f, i))
  }

  /** The conjecture of a relation, as an expression over variables. */
  function ConjectureExpr(formula: Formula, f: nat, sorts: seq<Sort>): S.Conjecture {
    S.Conjecture(FormulaExpr(formula, f, sorts), Variables(f, |sorts|))
  }

  function ConjectureMap(conjectures: seq<Formula>, relations: seq<seq<Sort>>, predicates: set<nat>)
    : map<S.Decl, S.Conjecture>
    requires |conjectures| == |relations| && forall f :: f in predicates ==> f < |relations|
  {
    map f | f in predicates :: S.Predicate(f) := ConjectureExpr(conjectures[f], f, relations[f])
  }

  // ---------- their meaning ----------

  /** The variables of a relation have the given values, and symbols their usual meaning. */
  ghost predicate Binds(I: S.Interpretation, f: nat, args: seq<int>) {
    Standard(I) && forall i :: 0 <= i < |args| ==> I(S.Variable(f, i), []) == args[i]
  }

  lemma EvalNone(d: S.Decl, I: S.Interpretation)
    ensures S.Eval(S.App(d, []), I) == I(d, [])
  {
    S.EvalUnfold(S.App(d, []), I);
    assert S.EvalAll([], I) == [];
  }

  lemma EvalOne(d: S.Decl, a: S.Expr, I: S.Interpretation)
    ensures S.Eval(S.App(d, [a]), I) == I(d, [S.Eval(a, I)])
  {
    S.EvalUnfold(S.App(d, [a]), I);
    assert S.EvalAll([a], I) == [S.Eval(a, I)];
  }

  lemma EvalTwo(d: S.Decl, a: S.Expr, b: S.Expr, I: S.Interpretation)
    ensures S.Eval(S.App(d, [a, b]), I) == I(d, [S.Eval(a, I), S.Eval(b, I)])
  {
    S.EvalUnfold(S.App(d, [a, b]), I);
    assert S.EvalAll([a, b], I) == [S.Eval(a, I), S.Eval(b, I)];
  }

  lemma TermMeaning(term: Term, f: nat, sorts: seq<Sort>, args: seq<int>, I: S.Interpretation)
    requires |sorts| == |args| && Binds(I, f, args)
    ensures var e, n := TermExpr(term, f, sorts), AttributeValue(Attribute(f, term), FromInts(sorts, args));
            if Numeric(term, sorts) then S.Eval(e, I) == n else n == TruthValue(S.Eval(e, I) == 1)
  {
    var values := FromInts(sorts, args);
    if !FitsArity(term, sorts) {
      EvalNone(S.Number(0), I);
    } else {
      match term
      case Argument(i) => EvalNone(S.Variable(f, i), I);
      case Sum(i, j) =>
        EvalNone(S.Variable(f, i), I);
        EvalNone(S.Variable(f, j), I);
        EvalTwo(S.Builtin(S.Plus), Argument(f, i), Argument(f, j), I);
      case Difference(i, j) =>
        EvalNone(S.Variable(f, i), I);
        EvalNone(S.Variable(f, j), I);
        EvalTwo(S.Builtin(S.Minus), Argument(f, i), Argument(f, j), I);
    }
  }

  lemma TruthAtMostMeaning(e: S.Expr, threshold: int, I: S.Interpretation)
    requires Standard(I)
    ensures S.Eval(TruthAtMost(e, threshold), I) == TruthValue(TruthValue(S.Eval(e, I) == 1) <= threshold)
  {
    EvalNone(S.Builtin(S.True), I);
    EvalNone(S.Builtin(S.False), I);
    EvalOne(S.Builtin(S.Not), e, I);
  }

  /** The expression of a formula has its truth value. */
  lemma {:induction false} FormulaMeaning(formula: Formula, f: nat, sorts: seq<Sort>, args: seq<int>,
                                          I: S.Interpretation)
    requires |sorts| == |args| && Binds(I, f, args)
    ensures S.Eval(FormulaExpr(formula, f, sorts), I) == TruthValue(EvalFormula(formula, FromInts(sorts, args)))
  {
    hide AttributeValue;
    EvalNone(S.Builtin(S.True), I);
    EvalNone(S.Builtin(S.False), I);
    match formula
    case Const(_) =>
    case AtMost(a, threshold) =>
      var e := TermExpr(a.term, f, sorts);
      TermMeaning(a.term, f, sorts, args, I);
      OwnAttribute(a, f, FromInts(sorts, args));
      EvalNone(S.Number(threshold), I);
      EvalTwo(S.Builtin(S.AtMost), e, Literal(threshold), I);
      TruthAtMostMeaning(e, threshold, I);
    case MoreThan(a, threshold) =>
      var e := TermExpr(a.term, f, sorts);
      TermMeaning(a.term, f, sorts, args, I);
      OwnAttribute(a, f, FromInts(sorts, args));
      EvalNone(S.Number(threshold), I);
      EvalTwo(S.Builtin(S.MoreThan), e, Literal(threshold), I);
      TruthAtMostMeaning(e, threshold, I);
      EvalOne(S.Builtin(S.Not), TruthAtMost(e, threshold), I);
    case Truth(a, constant) =>
      TermMeaning(a.term, f, sorts, args, I);
      OwnAttribute(a, f, FromInts(sorts, args));
      EvalTwo(S.Builtin(S.And), TermExpr(a.term, f, sorts), Leaf(if constant then S.True else S.False), I);
    case And(l, r) =>
      FormulaMeaning(l, f, sorts, args, I);
      FormulaMeaning(r, f, sorts, args, I);
      EvalTwo(S.Builtin(S.And), FormulaExpr(l, f, sorts), FormulaExpr(r, f, sorts), I);
    case Or(l, r) =>
      FormulaMeaning(l, f, sorts, args, I);
      FormulaMeaning(r, f, sorts, args, I);
      EvalTwo(S.Builtin(S.Or), FormulaExpr(l, f, sorts), FormulaExpr(r, f, sorts), I);
  }

  /** The value of an attribute depends on its term only. */
  lemma OwnAttribute(a: Attribute, f: nat, values: seq<Value>)
    ensures AttributeValue(a, values) == AttributeValue(Attribute(f, a.term), values)
  {
  }

  lemma FreeApp(d: S.Decl, args: seq<S.Expr>, g: nat)
    requires !d.Predicate? && forall i :: 0 <= i < |args| ==> !S.Mentions(args[i], S.Predicate(g))
    ensures !S.Mentions(S.App(d, args), S.Predicate(g))
  {
  }

  lemma TermFree(term: Term, f: nat, sorts: seq<Sort>, g: nat)
    ensures !S.Mentions(TermExpr(term, f, sorts), S.Predicate(g))
  {
    match term
    case Argument(_) =>
    case Sum(i, j) =>
      FreeApp(S.Variable(f, i), [], g);
      FreeApp(S.Variable(f, j), [], g);
      FreeApp(S.Builtin(S.Plus), [Argument(f, i), Argument(f, j)], g);
    case Difference(i, j) =>
      FreeApp(S.Variable(f, i), [], g);
      FreeApp(S.Variable(f, j), [], g);
      FreeApp(S.Builtin(S.Minus), [Argument(f, i), Argument(f, j)], g);
  }

  /** Conjectures mention no relation. */
  lemma {:induction false} FormulaFree(formula: Formula, f: nat, sorts: seq<Sort>, g: nat)
    ensures !S.Mentions(FormulaExpr(formula, f, sorts), S.Predicate(g))
  {
    FreeApp(S.Builtin(S.True), [], g);
    FreeApp(S.Builtin(S.False), [], g);
    match formula
    case Const(_) =>
    case AtMost(a, threshold) =>
      var e := TermExpr(a.term, f, sorts);
      TermFree(a.term, f, sorts, g);
      FreeApp(S.Number(threshold), [], g);
      FreeApp(S.Builtin(S.AtMost), [e, Literal(threshold)], g);
      FreeApp(S.Builtin(S.Not), [e], g);
    case MoreThan(a, threshold) =>
      var e := TermExpr(a.term, f, sorts);
      TermFree(a.term, f, sorts, g);
      FreeApp(S.Number(threshold), [], g);
      FreeApp(S.Builtin(S.MoreThan), [e, Literal(threshold)], g);
      FreeApp(S.Builtin(S.Not), [e], g);
      FreeApp(S.Builtin(S.Not), [TruthAtMost(e, threshold)], g);
    case Truth(a, constant) =>
      TermFree(a.term, f, sorts, g);
      FreeApp(S.Builtin(S.And), [TermExpr(a.term, f, sorts), Leaf(if constant then S.True else S.False)], g);
    case And(l, r) =>
      FormulaFree(l, f, sorts, g);
      FormulaFree(r, f, sorts, g);
      FreeApp(S.Builtin(S.And), [FormulaExpr(l, f, sorts), FormulaExpr(r, f, sorts)], g);
    case Or(l, r) =>
      FormulaFree(l, f, sorts, g);
      FormulaFree(r, f, sorts, g);
      FreeApp(S.Builtin(S.Or), [FormulaExpr(l, f, sorts), FormulaExpr(r, f, sorts)], g);
  }

  // ---------- what a CHC says ----------

  /** An application of a relation to arguments that mention no relation. */
  ghost predicate IsApplication(app: S.Expr, predicates: set<nat>, relations: seq<seq<Sort>>) {
    && app.decl.Predicate? && app.decl.f in predicates && app.decl.f < |relations|
    && |app.args| == |relations[app.decl.f]|
    && forall i, g :: 0 <= i < |app.args| ==> !S.Mentions(app.args[i], S.Predicate(g))
  }

  /** The point an application stands for, given the values of the constants. */
  function PointOf(app: S.Expr, relations: seq<seq<Sort>>, theory: S.Interpretation, m: Assignment): Point
    requires app.decl.Predicate? && app.decl.f < |relations| && |app.args| == |relations[app.decl.f]|
  {
    Point(app.decl.f, FromInts(relations[app.decl.f], S.EvalAll(app.args, World(theory, relations, m, Nowhere()))))
  }

  ghost predicate AreApplications(apps: seq<S.Expr>, predicates: set<nat>, relations: seq<seq<Sort>>) {
    forall i :: 0 <= i < |apps| ==> IsApplication(apps[i], predicates, relations)
  }

  ghost function PointsOf(apps: seq<S.Expr>, predicates: set<nat>, relations: seq<seq<Sort>>, theory: S.Interpretation,
                          m: Assignment): seq<Point>
    requires AreApplications(apps, predicates, relations)
  {
    seq(|apps|, i requires 0 <= i < |apps| => PointOf(apps[i], relations, theory, m))
  }

  /** The counterexample that an assignment gives. */
  ghost function CounterexampleOf(chc: Chc, relations: seq<seq<Sort>>, theory: S.Interpretation,
                                  m: Assignment): Counterexample
    requires AreApplications(chc.lhs, chc.predicates, relations) && AreApplications(chc.rhs, chc.predicates, relations)
  {
    Counterexample(PointsOf(chc.lhs, chc.predicates, relations, theory, m),
      PointsOf(chc.rhs, chc.predicates, relations, theory, m))
  }

  /** The assignment meets the constraint of the CHC: some relations make the CHC false under it. */
  ghost predicate Possible(chc: Chc, relations: seq<seq<Sort>>, theory: S.Interpretation, m: Assignment) {
    exists P: Point -> bool :: !IsTrue(chc.expr, World(theory, relations, m, P))
  }

  /**
   A well-formed CHC.  The last clause says what makes it one: it is false exactly if its constraint holds,
   all its premises are true and none of its conclusions is.
   */
  ghost predicate WellFormedChc(chc: Chc, relations: seq<seq<Sort>>, theory: S.Interpretation) {
    && (forall f :: f in chc.predicates ==> f < |relations| && S.WellSorted(chc.expr, S.Predicate(f), |relations[f]|))
    && (forall f: nat :: S.Mentions(chc.expr, S.Predicate(f)) ==> f in chc.predicates)
    && AreApplications(chc.lhs, chc.predicates, relations) && AreApplications(chc.rhs, chc.predicates, relations)
    && |chc.rhs| <= 1 && (chc.predicates != {} ==> chc.lhs + chc.rhs != [])
    && forall m: Assignment, P: Point -> bool ::
         !IsTrue(chc.expr, World(theory, relations, m, P)) <==>
           Possible(chc, relations, theory, m) && !Fulfils(P, CounterexampleOf(chc, relations, theory, m))
  }

  /** The ground instances of a CHC. */
  ghost predicate IsInstance(chc: Chc, relations: seq<seq<Sort>>, theory: S.Interpretation, ce: Counterexample)
    requires WellFormedChc(chc, relations, theory)
  {
    exists m: Assignment :: Possible(chc, relations, theory, m) && ce == CounterexampleOf(chc, relations, theory, m)
  }

  /** An interpretation fulfils all instances of a CHC exactly if it makes the CHC true under every assignment. */
  lemma InstancesMean(chc: Chc, relations: seq<seq<Sort>>, theory: S.Interpretation, P: Point -> bool)
    requires WellFormedChc(chc, relations, theory)
    ensures (forall ce :: IsInstance(chc, relations, theory, ce) ==> Fulfils(P, ce)) <==>
            forall m: Assignment :: IsTrue(chc.expr, World(theory, relations, m, P))
  {
    hide Fulfils;
    if forall ce :: IsInstance(chc, relations, theory, ce) ==> Fulfils(P, ce) {
      forall m: Assignment ensures IsTrue(chc.expr, World(theory, relations, m, P)) {
        if Possible(chc, relations, theory, m) {
          assert IsInstance(chc, relations, theory, CounterexampleOf(chc, relations, theory, m));
        }
      }
    }
  }

  /** Instances are over the relations of the CHC and have the right sorts. */
  lemma InstanceSorted(chc: Chc, relations: seq<seq<Sort>>, theory: S.Interpretation, ce: Counterexample)
    requires WellFormedChc(chc, relations, theory) && IsInstance(chc, relations, theory, ce)
    ensures |ce.rhs| <= 1 && (chc.predicates != {} ==> ce.lhs + ce.rhs != [])
    ensures forall q :: q in ce.lhs + ce.rhs ==> WellSorted(q, relations) && q.relation in chc.predicates
  {
    hide Possible, IsTrue, World, FromInts;
    assert |ce.lhs + ce.rhs| == |chc.lhs + chc.rhs|;
    forall q | q in ce.lhs + ce.rhs ensures WellSorted(q, relations) && q.relation in chc.predicates {
      assert q in ce.lhs || q in ce.rhs;
    }
  }

  // ---------- clauses are CHCs ----------

  function Negation(e: S.Expr): S.Expr {
    S.App(S.Builtin(S.Not), [e])
  }

  /** Some premise is false or some conclusion is true. */
  function Either(lhs: seq<S.Expr>, rhs: seq<S.Expr>): S.Expr
    decreases |lhs|, |rhs|
  {
    if lhs != [] then Apply2(S.Or, Negation(lhs[0]), Either(lhs[1..], rhs))
    else if rhs != [] then Apply2(S.Or, rhs[0], Either([], rhs[1..]))
    else Leaf(S.False)
  }

  /** The clause with the given constraint, premises and conclusions. */
  function Clause(constraint: S.Expr, lhs: seq<S.Expr>, rhs: seq<S.Expr>): S.Expr {
    Apply2(S.Or, Negation(constraint), Either(lhs, rhs))
  }

  lemma OrMeans(a: S.Expr, b: S.Expr, I: S.Interpretation)
    requires Standard(I)
    ensures IsTrue(Apply2(S.Or, a, b), I) <==> IsTrue(a, I) || IsTrue(b, I)
    ensures IsTrue(Apply2(S.Or, Negation(a), b), I) <==> !IsTrue(a, I) || IsTrue(b, I)
  {
    EvalTwo(S.Builtin(S.Or), a, b, I);
    EvalTwo(S.Builtin(S.Or), Negation(a), b, I);
    EvalOne(S.Builtin(S.Not), a, I);
  }

  lemma {:induction false} EitherMeans(lhs: seq<S.Expr>, rhs: seq<S.Expr>, I: S.Interpretation)
    requires Standard(I)
    ensures IsTrue(Either(lhs, rhs), I) <==>
              (exists i :: 0 <= i < |lhs| && !IsTrue(lhs[i], I)) || exists i :: 0 <= i < |rhs| && IsTrue(rhs[i], I)
    decreases |lhs|, |rhs|
  {
    hide Standard, IsTrue;
    if lhs != [] {
      EitherMeans(lhs[1..], rhs, I);
      OrMeans(lhs[0], Either(lhs[1..], rhs), I);
      assert forall i :: 0 < i < |lhs| ==> lhs[i] == lhs[1..][i - 1];
    } else if rhs != [] {
      EitherMeans([], rhs[1..], I);
      OrMeans(rhs[0], Either([], rhs[1..]), I);
      assert forall i :: 0 < i < |rhs| ==> rhs[i] == rhs[1..][i - 1];
    } else {
      FalseMeans(I);
    }
  }

  lemma FalseMeans(I: S.Interpretation)
    requires Standard(I)
    ensures !IsTrue(Leaf(S.False), I)
  {
    EvalNone(S.Builtin(S.False), I);
  }

  lemma WorldStandard(relations: seq<seq<Sort>>, theory: S.Interpretation, m: Assignment, P: Point -> bool)
    requires Standard(theory)
    ensures Standard(World(theory, relations, m, P))
  {
    SameStandard(theory, World(theory, relations, m, P));
  }

  /** Without relations, their interpretation does not matter. */
  lemma FreeSame(e: S.Expr, relations: seq<seq<Sort>>, theory: S.Interpretation, m: Assignment, P: Point -> bool)
    requires forall g :: !S.Mentions(e, S.Predicate(g))
    ensures S.Eval(e, World(theory, relations, m, P)) == S.Eval(e, World(theory, relations, m, Nowhere()))
  {
    var I, J := World(theory, relations, m, P), World(theory, relations, m, Nowhere());
    forall d: S.Decl | d.Predicate? ensures !S.Mentions(e, d) { assert d == S.Predicate(d.f); }
    assert forall d: S.Decl, args :: !d.Predicate? ==> I(d, args) == J(d, args);
    S.EvalSame(e, I, J);
  }

  /** An application is true exactly if its point is. */
  lemma ApplicationMeans(app: S.Expr, predicates: set<nat>, relations: seq<seq<Sort>>, theory: S.Interpretation,
                         m: Assignment, P: Point -> bool)
    requires IsApplication(app, predicates, relations)
    ensures IsTrue(app, World(theory, relations, m, P)) <==> P(PointOf(app, relations, theory, m))
  {
    var I, J := World(theory, relations, m, P), World(theory, relations, m, Nowhere());
    forall i | 0 <= i < |app.args| ensures S.Eval(app.args[i], I) == S.Eval(app.args[i], J) {
      FreeSame(app.args[i], relations, theory, m, P);
    }
    assert S.EvalAll(app.args, I) == S.EvalAll(app.args, J);
    S.EvalUnfold(app, I);
  }

  /** The relations occur with the right numbers of arguments, and no others occur. */
  ghost predicate Sorted(e: S.Expr, predicates: set<nat>, relations: seq<seq<Sort>>) {
    && (forall f :: f in predicates && f < |relations| ==> S.WellSorted(e, S.Predicate(f), |relations[f]|))
    && forall f: nat :: S.Mentions(e, S.Predicate(f)) ==> f in predicates
  }

  lemma SortedApp(d: S.Decl, args: seq<S.Expr>, predicates: set<nat>, relations: seq<seq<Sort>>)
    requires !d.Predicate? && forall i :: 0 <= i < |args| ==> Sorted(args[i], predicates, relations)
    ensures Sorted(S.App(d, args), predicates, relations)
  {
  }

  lemma {:induction false} FreeSorted(e: S.Expr, predicates: set<nat>, relations: seq<seq<Sort>>)
    requires forall g :: !S.Mentions(e, S.Predicate(g))
    ensures Sorted(e, predicates, relations)
  {
    forall i | 0 <= i < |e.args| ensures Sorted(e.args[i], predicates, relations) {
      forall g ensures !S.Mentions(e.args[i], S.Predicate(g)) { assert !S.Mentions(e, S.Predicate(g)); }
      FreeSorted(e.args[i], predicates, relations);
    }
    if e.decl.Predicate? { assert S.Mentions(e, S.Predicate(e.decl.f)); }
  }

  lemma ApplicationSorted(app: S.Expr, predicates: set<nat>, relations: seq<seq<Sort>>)
    requires IsApplication(app, predicates, relations)
    ensures Sorted(app, predicates, relations)
  {
    forall i | 0 <= i < |app.args| ensures Sorted(app.args[i], predicates, relations) {
      FreeSorted(app.args[i], predicates, relations);
    }
  }

  lemma {:induction false} EitherSorted(lhs: seq<S.Expr>, rhs: seq<S.Expr>, predicates: set<nat>,
                                        relations: seq<seq<Sort>>)
    requires AreApplications(lhs, predicates, relations) && AreApplications(rhs, predicates, relations)
    ensures Sorted(Either(lhs, rhs), predicates, relations)
    decreases |lhs|, |rhs|
  {
    hide Sorted;
    if lhs != [] {
      EitherSorted(lhs[1..], rhs, predicates, relations);
      ApplicationSorted(lhs[0], predicates, relations);
      SortedApp(S.Builtin(S.Not), [lhs[0]], predicates, relations);
      SortedApp(S.Builtin(S.Or), [Negation(lhs[0]), Either(lhs[1..], rhs)], predicates, relations);
    } else if rhs != [] {
      EitherSorted([], rhs[1..], predicates, relations);
      ApplicationSorted(rhs[0], predicates, relations);
      SortedApp(S.Builtin(S.Or), [rhs[0], Either([], rhs[1..])], predicates, relations);
    } else {
      SortedApp(S.Builtin(S.False), [], predicates, relations);
    }
  }

  /** Every clause over the relations, with at most one conclusion, is a well-formed CHC. */
  lemma ClauseWellFormed(constraint: S.Expr, predicates: set<nat>, lhs: seq<S.Expr>, rhs: seq<S.Expr>,
                         relations: seq<seq<Sort>>, theory: S.Interpretation)
    requires Standard(theory) && (forall g :: !S.Mentions(constraint, S.Predicate(g))) &&
               (forall f :: f in predicates ==> f < |relations|)
    requires AreApplications(lhs, predicates, relations) && AreApplications(rhs, predicates, relations)
    requires |rhs| <= 1 && (predicates != {} ==> lhs + rhs != [])
    ensures WellFormedChc(Chc(Clause(constraint, lhs, rhs), predicates, lhs, rhs), relations, theory)
  {
    hide IsTrue, World, Standard, FromInts, IsApplication;
    var chc := Chc(Clause(constraint, lhs, rhs), predicates, lhs, rhs);
    EitherSorted(lhs, rhs, predicates, relations);
    FreeSorted(constraint, predicates, relations);
    SortedApp(S.Builtin(S.Not), [constraint], predicates, relations);
    SortedApp(S.Builtin(S.Or), [Negation(constraint), Either(lhs, rhs)], predicates, relations);
    forall m: Assignment, P: Point -> bool
      ensures !IsTrue(chc.expr, World(theory, relations, m, P)) <==>
                IsTrue(constraint, World(theory, relations, m, Nowhere())) &&
                  !Fulfils(P, CounterexampleOf(chc, relations, theory, m))
    {
      ClauseMeans(constraint, chc, relations, theory, m, P);
    }
    forall m: Assignment | Possible(chc, relations, theory, m)
      ensures IsTrue(constraint, World(theory, relations, m, Nowhere()))
    {
      var P: Point -> bool :| !IsTrue(chc.expr, World(theory, relations, m, P));
    }
  }

  lemma ClauseMeans(constraint: S.Expr, chc: Chc, relations: seq<seq<Sort>>, theory: S.Interpretation, m: Assignment,
                    P: Point -> bool)
    requires Standard(theory) && (forall g :: !S.Mentions(constraint, S.Predicate(g))) &&
               chc.expr == Clause(constraint, chc.lhs, chc.rhs)
    requires AreApplications(chc.lhs, chc.predicates, relations) && AreApplications(chc.rhs, chc.predicates, relations)
    ensures !IsTrue(chc.expr, World(theory, relations, m, P)) <==>
              IsTrue(constraint, World(theory, relations, m, Nowhere())) &&
                !Fulfils(P, CounterexampleOf(chc, relations, theory, m))
  {
    hide World, Standard, FromInts, Clause, Either;
    var I := World(theory, relations, m, P);
    WorldStandard(relations, theory, m, P);
    ClauseUnfold(constraint, chc.lhs, chc.rhs, I);
    EitherMeans(chc.lhs, chc.rhs, I);
    FreeSame(constraint, relations, theory, m, P);
    var ce := CounterexampleOf(chc, relations, theory, m);
    forall i | 0 <= i < |chc.lhs| ensures IsTrue(chc.lhs[i], I) <==> P(ce.lhs[i]) {
      ApplicationMeans(chc.lhs[i], chc.predicates, relations, theory, m, P);
    }
    forall i | 0 <= i < |chc.rhs| ensures IsTrue(chc.rhs[i], I) <==> P(ce.rhs[i]) {
      ApplicationMeans(chc.rhs[i], chc.predicates, relations, theory, m, P);
    }
  }

  lemma ClauseUnfold(constraint: S.Expr, lhs: seq<S.Expr>, rhs: seq<S.Expr>, I: S.Interpretation)
    requires Standard(I)
    ensures IsTrue(Clause(constraint, lhs, rhs), I) <==> !IsTrue(constraint, I) || IsTrue(Either(lhs, rhs), I)
  {
    OrMeans(constraint, Either(lhs, rhs), I);
  }

  // ---------- substituting the conjectures ----------

  lemma MapFree(conjectures: seq<Formula>, relations: seq<seq<Sort>>, predicates: set<nat>)
    requires |conjectures| == |relations| && forall f :: f in predicates ==> f < |relations|
    ensures S.PredicateFree(ConjectureMap(conjectures, relations, predicates))
  {
    var cs := ConjectureMap(conjectures, relations, predicates);
    forall f, g | f in cs && g in cs ensures !S.Mentions(cs[f].body, g) && g !in cs[f].variables {
      FormulaFree(conjectures[f.f], f.f, relations[f.f], g.f);
    }
  }

  /** The body of a conjecture, with its variables bound, has the truth value of its formula. */
  lemma DefinedMeans(conjectures: seq<Formula>, relations: seq<seq<Sort>>, theory: S.Interpretation, m: Assignment,
                     f: nat, args: seq<int>)
    requires Standard(theory) && f < |conjectures| == |relations| && |args| == |relations[f]|
    ensures var h := ConjectureExpr(conjectures[f], f, relations[f]);
            S.Eval(h.body, S.BindVariables(World(theory, relations, m, Nowhere()), h.variables, args)) ==
              TruthValue(Reading(conjectures)(Point(f, FromInts(relations[f], args))))
  {
    var h := ConjectureExpr(conjectures[f], f, relations[f]);
    var I := S.BindVariables(World(theory, relations, m, Nowhere()), h.variables, args);
    BoundStandard(relations, theory, m, f, args);
    hide World, Standard, FormulaExpr, S.BindVariables;
    FormulaMeaning(conjectures[f], f, relations[f], args, I);
  }

  lemma BoundStandard(relations: seq<seq<Sort>>, theory: S.Interpretation, m: Assignment, f: nat, args: seq<int>)
    requires Standard(theory)
    ensures Binds(S.BindVariables(World(theory, relations, m, Nowhere()), Variables(f, |args|), args), f, args)
  {
    var base, variables := World(theory, relations, m, Nowhere()), Variables(f, |args|);
    var I := S.BindVariables(base, variables, args);
    assert forall d: S.Decl, vs: seq<int> :: d.Builtin? || d.Number? ==> I(d, vs) == theory(d, vs);
    SameStandard(theory, I);
    hide World;
    forall i | 0 <= i < |args| ensures I(S.Variable(f, i), []) == args[i] {
      BoundValue(base, variables, args, f, i);
    }
  }

  lemma SameStandard(I: S.Interpretation, J: S.Interpretation)
    requires Standard(I) && forall d: S.Decl, vs: seq<int> :: d.Builtin? || d.Number? ==> J(d, vs) == I(d, vs)
    ensures Standard(J)
  {
    forall n ensures J(S.Number(n), []) == n { assert J(S.Number(n), []) == I(S.Number(n), []); }
  }

  lemma BoundValue(base: S.Interpretation, variables: seq<S.Decl>, args: seq<int>, f: nat, i: nat)
    requires |variables| == |args| && i < |args|
    requires forall j :: 0 <= j < |variables| ==> variables[j] == S.Variable(f, j)
    ensures S.BindVariables(base, variables, args)(S.Variable(f, i), []) == args[i]
  {
    assert variables[i] == S.Variable(f, i);
    assert variables[S.IndexOf(variables, S.Variable(f, i))] == S.Variable(f, i);
  }

  /** What is left after the substitution is true exactly if the CHC is, read with the conjectures. */
  lemma SubstitutedMeans(chc: Chc, relations: seq<seq<Sort>>, conjectures: seq<Formula>, theory: S.Interpretation,
                         order: seq<S.Decl>, m: Assignment)
    requires WellFormedChc(chc, relations, theory) && Standard(theory) && |conjectures| == |relations|
    requires forall d :: d in order <==> d.Predicate? && d.f in chc.predicates
    ensures var cs := ConjectureMap(conjectures, relations, chc.predicates);
            && S.PredicateFree(cs) && S.SortedFor(chc.expr, cs) && (forall d :: d in order ==> d in cs)
            && S.Eval(S.SubstAll(chc.expr, order, cs), World(theory, relations, m, Nowhere())) ==
                 S.Eval(chc.expr, World(theory, relations, m, Reading(conjectures)))
  {
    hide FormulaExpr, Reading, FromInts, Standard, S.Eval, S.BindVariables, AreApplications, Possible;
    var cs := ConjectureMap(conjectures, relations, chc.predicates);
    MapFree(conjectures, relations, chc.predicates);
    var base := World(theory, relations, m, Nowhere());
    S.SubstAllMeaning(chc.expr, order, cs, base);
    var fs := S.SetOf(order);
    var I, J := S.DefineAll(base, cs, fs), World(theory, relations, m, Reading(conjectures));
    forall d, args | S.Mentions(chc.expr, d) ensures I(d, args) == J(d, args) {
      if d.Predicate? && |args| == |relations[d.f]| {
        DefinedMeans(conjectures, relations, theory, m, d.f, args);
      }
    }
    S.EvalSame(chc.expr, I, J);
  }

  // ---------- the check ----------

  /** The solver finds an assignment that makes an expression without relations false exactly if there is one. */
  ghost predicate SoundSolver(z3: (S.Expr, nat) -> Option<Assignment>, theory: S.Interpretation,
                              relations: seq<seq<Sort>>) {
    forall e, k: nat ::
      match z3(e, k)
      case None => forall m: Assignment :: IsTrue(e, World(theory, relations, m, Nowhere()))
      case Some(m) => !IsTrue(e, World(theory, relations, m, Nowhere()))
  }

  /** The relations of a CHC, in any order. */
  method ListPredicates(predicates: set<nat>) returns (order: seq<S.Decl>)
    ensures forall d :: d in order <==> d.Predicate? && d.f in predicates
  {
    order := [];
    var rest := predicates;
    while rest != {}
      invariant rest <= predicates
      invariant forall d :: d in order <==> d.Predicate? && d.f in predicates && d.f !in rest
      decreases rest
    {
      var f :| f in rest;
      order := order + [S.Predicate(f)];
      rest := rest - {f};
    }
  }

  /** Reads the points of applications off an assignment. */
  method ReadPoints(apps: seq<S.Expr>, ghost predicates: set<nat>, relations: seq<seq<Sort>>, theory: S.Interpretation,
                    m: Assignment)
    returns (points: seq<Point>)
    requires AreApplications(apps, predicates, relations)
    ensures points == PointsOf(apps, predicates, relations, theory, m)
  {
    hide World, FromInts;
    points := [];
    var i := 0;
    while i < |apps|
      invariant 0 <= i <= |apps| && |points| == i
      invariant forall j :: 0 <= j < i ==> points[j] == PointOf(apps[j], relations, theory, m)
    {
      assert IsApplication(apps[i], predicates, relations);
      points := points + [PointOf(apps[i], relations, theory, m)];
      i := i + 1;
    }
  }

  /**
   Checks a CHC.  Without a counterexample, the conjectures fulfil all its instances; a counterexample is an
   instance they do not fulfil.
   */
  method CheckChc(chc: Chc, relations: seq<seq<Sort>>, conjectures: seq<Formula>, theory: S.Interpretation,
                  z3: (S.Expr, nat) -> Option<Assignment>, clock: nat) returns (r: Option<Counterexample>)
    requires WellFormedChc(chc, relations, theory) && Standard(theory) && SoundSolver(z3, theory, relations)
    requires |conjectures| == |relations|
    ensures r.None? ==> forall ce :: IsInstance(chc, relations, theory, ce) ==> Fulfils(Reading(conjectures), ce)
    ensures r.Some? ==> IsInstance(chc, relations, theory, r.value) && !Fulfils(Reading(conjectures), r.value)
  {
    hide World, Reading, Fulfils, Standard, ConjectureMap, S.SubstAll, S.PredicateFree, S.SortedFor, S.Eval, Possible,
      AreApplications;
    var order := ListPredicates(chc.predicates);
    var cs := ConjectureMap(conjectures, relations, chc.predicates);
    forall m: Assignment
      ensures S.PredicateFree(cs) && S.SortedFor(chc.expr, cs) && (forall d :: d in order ==> d in cs)
      ensures S.Eval(S.SubstAll(chc.expr, order, cs), World(theory, relations, m, Nowhere())) ==
              S.Eval(chc.expr, World(theory, relations, m, Reading(conjectures)))
    {
      SubstitutedMeans(chc, relations, conjectures, theory, order, m);
    }
    SubstitutedMeans(chc, relations, conjectures, theory, order, _ => 0);
    var substituted := S.SubstituteAll(chc.expr, order, cs);
    var answer := z3(substituted, clock);
    if answer.None? {
      r := None;
      InstancesMean(chc, relations, theory, Reading(conjectures));
    } else {
      var lhs := ReadPoints(chc.lhs, chc.predicates, relations, theory, answer.value);
      var rhs := ReadPoints(chc.rhs, chc.predicates, relations, theory, answer.value);
      r := Some(Counterexample(lhs, rhs));
      assert !IsTrue(chc.expr, World(theory, relations, answer.value, Reading(conjectures)));
    }
  }
}
