/**
 Derived predicates over integer attributes, decision trees for conjunctions of them, and the
 Horndini prephase of the learner.
 */
module Conjunctions {
  import opened Horn
  import opened Tree
  import opened Horndini

  datatype Kind = GE | LE | EQ

  datatype DerivedPredicate = DerivedPredicate(index: nat, kind: Kind, threshold: int)

  predicate True(pred: DerivedPredicate, d: Datum)
    requires pred.index < |d.ints|
  {
    match pred.kind
    case GE => d.ints[pred.index] >= pred.threshold
    case LE => d.ints[pred.index] <= pred.threshold
    case EQ => d.ints[pred.index] == pred.threshold
  }

  // ---------- generating predicates ----------

  /** The predicates over the attributes of an interval with thresholds up to the bound. */
  predicate Over(pred: DerivedPredicate, interval: Interval, bound: nat) {
    interval.first <= pred.index <= interval.last && -(bound as int) <= pred.threshold <= bound
  }

  ghost predicate Exactly(preds: seq<DerivedPredicate>, interval: Interval, bound: nat) {
    forall pred: DerivedPredicate :: pred in preds <==> Over(pred, interval, bound)
  }

  /** The intervals cut a vector of the given length into consecutive pieces; the first one is not empty. */
  ghost predicate Cut(derived: seq<Interval>, length: nat) {
    && (forall i :: 0 <= i < |derived| ==> derived[i].first <= derived[i].last + 1)
    && (forall i :: 0 < i < |derived| ==> derived[i].first == derived[i - 1].last + 1)
    && (if derived == [] then length == 0 else derived[0].first == 0 && derived[|derived| - 1].last + 1 == length)
  }

  lemma {:induction false} CutBelow(derived: seq<Interval>, length: nat, i: nat)
    requires Cut(derived, length) && i < |derived|
    ensures derived[i].last < length
    decreases |derived| - i
  {
    if i + 1 < |derived| {
      CutBelow(derived, length, i + 1);
    }
  }

  function Piece(preds: seq<DerivedPredicate>, derived: Interval): seq<DerivedPredicate>
    requires derived.first <= derived.last + 1 && derived.last < |preds|
  {
    preds[derived.first..derived.last + 1]
  }

  /** All predicates of one attribute: for every threshold the three kinds. */
  method AttributePredicates(attribute: nat, bound: nat) returns (preds: seq<DerivedPredicate>)
    ensures preds != [] && Exactly(preds, Interval(attribute, attribute), bound)
  {
    preds := [];
    var c := -(bound as int);
    while c <= bound
      invariant -(bound as int) <= c <= bound + 1
      invariant c > -(bound as int) ==> preds != []
      invariant forall pred: DerivedPredicate :: pred in preds <==>
                  pred.index == attribute && -(bound as int) <= pred.threshold < c
    {
      ghost var before := preds;
      var more := [DerivedPredicate(attribute, GE, c), DerivedPredicate(attribute, LE, c),
          DerivedPredicate(attribute, EQ, c)];
      preds := preds + more;
      forall pred: DerivedPredicate
        ensures pred in more <==> pred.index == attribute && pred.threshold == c
      {
        assert more[0] in more && more[1] in more && more[2] in more;
        assert pred.kind == GE || pred.kind == LE || pred.kind == EQ;
      }
      c := c + 1;
    }
  }

  /** All predicates of the attributes of one interval. */
  method IntervalPredicates(interval: Interval, bound: nat) returns (preds: seq<DerivedPredicate>)
    ensures interval.first <= interval.last ==> preds != []
    ensures Exactly(preds, interval, bound)
  {
    preds := [];
    var attribute := interval.first;
    while attribute <= interval.last
      invariant interval.first <= attribute && (attribute <= interval.last + 1 || attribute == interval.first)
      invariant attribute > interval.first ==> preds != []
      invariant forall pred: DerivedPredicate ::
        pred in preds <==> interval.first <= pred.index < attribute && -(bound as int) <= pred.threshold <= bound
    {
      var more := AttributePredicates(attribute, bound);
      preds := preds + more;
      attribute := attribute + 1;
    }
  }

  lemma CutMore(derived: seq<Interval>, length: nat, longer: nat)
    requires Cut(derived, length) && length <= longer && 0 < longer
    ensures Cut(derived + [Interval(length, longer - 1)], longer)
  {
  }

  lemma NewPiece(before: seq<DerivedPredicate>, more: seq<DerivedPredicate>)
    requires before + more != []
    ensures Piece(before + more, Interval(|before|, |before| + |more| - 1)) == more
  {
  }

  lemma OldPiece(before: seq<DerivedPredicate>, more: seq<DerivedPredicate>, derived: Interval)
    requires derived.first <= derived.last + 1 && derived.last < |before|
    ensures Piece(before + more, derived) == Piece(before, derived)
  {
  }

  /**
   Derives the predicates of all attributes.  The derived intervals cut the predicate vector, and the
   piece of each one holds exactly the predicates over the attributes of the original interval.
   */
  method GeneratePredicates(intervals: seq<Interval>, bound: nat)
    returns (preds: seq<DerivedPredicate>, derived: seq<Interval>)
    requires intervals != [] ==> intervals[0].first <= intervals[0].last
    ensures |derived| == |intervals| && Cut(derived, |preds|)
    ensures forall i :: 0 <= i < |derived| ==>
              derived[i].last < |preds| && Exactly(Piece(preds, derived[i]), intervals[i], bound)
  {
    hide Generated;
    preds, derived := [], [];
    NothingGenerated(intervals, bound);
    var i := 0;
    while i < |intervals|
      invariant 0 <= i <= |intervals| && Generated(preds, derived, intervals, bound, i) && (i > 0 ==> preds != [])
    {
      hide Exactly;
      var left := |preds|;
      var more := IntervalPredicates(intervals[i], bound);
      GeneratedMore(preds, derived, intervals, bound, i, more);
      preds := preds + more;
      derived := derived + [Interval(left, |preds| - 1)];
      i := i + 1;
    }
    AllGenerated(preds, derived, intervals, bound);
  }

  /** The predicates of the first `i` intervals. */
  ghost predicate Generated(preds: seq<DerivedPredicate>, derived: seq<Interval>, intervals: seq<Interval>, bound: nat,
                            i: nat) {
    && i <= |intervals| && |derived| == i && Cut(derived, |preds|)
    && forall k :: 0 <= k < i ==>
         derived[k].first <= derived[k].last + 1 && derived[k].last < |preds| &&
         Exactly(Piece(preds, derived[k]), intervals[k], bound)
  }

  lemma NothingGenerated(intervals: seq<Interval>, bound: nat)
    ensures Generated([], [], intervals, bound, 0)
  {
  }

  lemma AllGenerated(preds: seq<DerivedPredicate>, derived: seq<Interval>, intervals: seq<Interval>, bound: nat)
    requires Generated(preds, derived, intervals, bound, |intervals|)
    ensures |derived| == |intervals| && Cut(derived, |preds|)
    ensures forall k :: 0 <= k < |derived| ==>
              derived[k].last < |preds| && Exactly(Piece(preds, derived[k]), intervals[k], bound)
  {
  }

  lemma GeneratedMore(preds: seq<DerivedPredicate>, derived: seq<Interval>, intervals: seq<Interval>, bound: nat,
                      i: nat,
                      more: seq<DerivedPredicate>)
    requires i < |intervals| && Generated(preds, derived, intervals, bound, i) && Exactly(more, intervals[i], bound)
    requires preds + more != []
    ensures Generated(preds + more, derived + [Interval(|preds|, |preds + more| - 1)], intervals, bound, i + 1)
  {
    hide Exactly, Piece, Cut;
    var longer, last := preds + more, Interval(|preds|, |preds + more| - 1);
    CutMore(derived, |preds|, |longer|);
    NewPiece(preds, more);
    forall k | 0 <= k < i ensures Piece(longer, derived[k]) == Piece(preds, derived[k]) {
      OldPiece(preds, more, derived[k]);
    }
  }

  // ---------- derived data points ----------

  /** The derived data point records which predicates are true. */
  ghost predicate DerivedFrom(e: Datum, d: Datum, preds: seq<DerivedPredicate>) {
    && e.categories == d.categories && |e.ints| == |preds|
    && forall j :: 0 <= j < |preds| ==> preds[j].index < |d.ints| && e.ints[j] == if True(preds[j], d) then 1 else 0
  }

  method DeriveDatum(d: Datum, preds: seq<DerivedPredicate>) returns (e: Datum)
    requires forall j :: 0 <= j < |preds| ==> preds[j].index < |d.ints|
    ensures DerivedFrom(e, d, preds)
  {
    var bools: seq<int> := [];
    var j := 0;
    while j < |preds|
      invariant 0 <= j <= |preds| && |bools| == j
      invariant forall k :: 0 <= k < j ==> bools[k] == if True(preds[k], d) then 1 else 0
    {
      bools := bools + [if True(preds[j], d) then 1 else 0];
      j := j + 1;
    }
    e := Datum(d.categories, bools);
  }

  method GenerateDatapoints(data: seq<Datum>, preds: seq<DerivedPredicate>) returns (derived: seq<Datum>)
    requires forall p, j :: 0 <= p < |data| && 0 <= j < |preds| ==> preds[j].index < |data[p].ints|
    ensures DataDerivedFrom(derived, data, preds)
  {
    derived := [];
    var i := 0;
    while i < |data|
      invariant 0 <= i <= |data| && |derived| == i
      invariant forall p :: 0 <= p < i ==> DerivedFrom(derived[p], data[p], preds)
    {
      var e := DeriveDatum(data[i], preds);
      derived := derived + [e];
      i := i + 1;
    }
  }

  // ---------- trees for conjunctions ----------

  /** A chain of integer nodes that ends in `true` if all predicates are true. */
  function ConjunctionTree(preds: seq<DerivedPredicate>, conjunction: seq<nat>): Node
    requires forall k :: 0 <= k < |conjunction| ==> conjunction[k] < |preds|
  {
    if conjunction == [] then Leaf(true)
    else
      var pred, rest := preds[conjunction[0]], ConjunctionTree(preds, conjunction[1..]);
      match pred.kind
      case GE => IntNode(pred.index, pred.threshold - 1, Leaf(false), rest)
      case LE => IntNode(pred.index, pred.threshold, rest, Leaf(false))
      case EQ => IntNode(pred.index, pred.threshold, IntNode(pred.index, pred.threshold - 1, Leaf(false), rest),
          Leaf(false))
  }

  ghost predicate AllTrue(preds: seq<DerivedPredicate>, conjunction: seq<nat>, d: Datum) {
    forall k :: 0 <= k < |conjunction| ==>
      conjunction[k] < |preds| && preds[conjunction[k]].index < |d.ints| && True(preds[conjunction[k]], d)
  }

  /** One link of the chain. */
  lemma ChainLink(pred: DerivedPredicate, rest: Node, node: Node, d: Datum, meta: Metadata)
    requires pred.index < meta.intAttributes && ValidDatum(d, meta) && ValidNode(rest, meta)
    requires node == match pred.kind
                     case GE => IntNode(pred.index, pred.threshold - 1, Leaf(false), rest)
                     case LE => IntNode(pred.index, pred.threshold, rest, Leaf(false))
                     case EQ => IntNode(pred.index, pred.threshold,
                         IntNode(pred.index, pred.threshold - 1, Leaf(false), rest), Leaf(false))
    ensures ValidNode(node, meta) && Reach(node, d, meta) == if True(pred, d) then Reach(rest, d, meta) else Leaf(false)
  {
    if pred.kind == EQ {
      var inner := node.left;
      assert ValidNode(inner, meta);
      assert Reach(inner, d, meta) == if d.ints[pred.index] <= pred.threshold - 1 then Leaf(false)
          else Reach(rest, d, meta);
    }
  }

  lemma {:induction false} ConjunctionTreeMeaning(preds: seq<DerivedPredicate>, conjunction: seq<nat>, d: Datum,
                                                  meta: Metadata)
    requires forall k :: 0 <= k < |conjunction| ==> conjunction[k] < |preds|
    requires forall j :: 0 <= j < |preds| ==> preds[j].index < meta.intAttributes
    requires ValidDatum(d, meta)
    ensures ValidNode(ConjunctionTree(preds, conjunction), meta)
    ensures Reach(ConjunctionTree(preds, conjunction), d, meta) == Leaf(AllTrue(preds, conjunction, d))
  {
    if conjunction != [] {
      var head, tail := preds[conjunction[0]], conjunction[1..];
      ConjunctionTreeMeaning(preds, tail, d, meta);
      ChainLink(head, ConjunctionTree(preds, tail), ConjunctionTree(preds, conjunction), d, meta);
      assert forall k :: 0 < k < |conjunction| ==> conjunction[k] == tail[k - 1];
      assert forall k :: 0 <= k < |tail| ==> tail[k] == conjunction[k + 1];
    }
  }

  /** A categorical root with one conjunction per category. */
  method ConjunctionsTree(meta: Metadata, preds: seq<DerivedPredicate>, conjunctions: seq<seq<nat>>)
    returns (root: Node)
    requires |meta.numberOfCategories| > 0 && meta.numberOfCategories[0] == |conjunctions|
    requires forall f, k :: 0 <= f < |conjunctions| && 0 <= k < |conjunctions[f]| ==> conjunctions[f][k] < |preds|
    ensures RootOf(root, preds, conjunctions)
  {
    var children := seq(meta.numberOfCategories[0], _ => Hole(0));
    var i := 0;
    while i < |conjunctions|
      invariant 0 <= i <= |conjunctions| == |children|
      invariant forall f :: 0 <= f < i ==> children[f] == ConjunctionTree(preds, conjunctions[f])
    {
      children := children[i := ConjunctionTree(preds, conjunctions[i])];
      i := i + 1;
    }
    root := CategoricalNode(0, children);
  }

  /** The derived point satisfies a conjunction exactly if all its predicates are true of the original point. */
  lemma SatisfiesIsAllTrue(preds: seq<DerivedPredicate>, conjunction: seq<nat>, conj: set<nat>, d: Datum, e: Datum)
    requires DerivedFrom(e, d, preds) && (forall c :: c in conj <==> c in conjunction)
    requires forall k :: 0 <= k < |conjunction| ==> conjunction[k] < |preds|
    ensures SatisfiesAll(e, conj) <==> AllTrue(preds, conjunction, d)
  {
    assert forall k :: 0 <= k < |conjunction| ==> conjunction[k] in conj;
    assert forall c :: c in conj ==> c < |preds|;
  }

  ghost predicate DataDerivedFrom(derived: seq<Datum>, data: seq<Datum>, preds: seq<DerivedPredicate>) {
    |derived| == |data| && forall p :: 0 <= p < |data| ==> DerivedFrom(derived[p], data[p], preds)
  }

  ghost predicate RootOf(root: Node, preds: seq<DerivedPredicate>, conjunctions: seq<seq<nat>>)
    requires forall f, k :: 0 <= f < |conjunctions| && 0 <= k < |conjunctions[f]| ==> conjunctions[f][k] < |preds|
  {
    root == CategoricalNode(0,
      seq(|conjunctions|, f requires 0 <= f < |conjunctions| => ConjunctionTree(preds, conjunctions[f])))
  }

  lemma RootValid(meta: Metadata, preds: seq<DerivedPredicate>, conjunctions: seq<seq<nat>>, root: Node, d: Datum)
    requires |meta.numberOfCategories| > 0 && meta.numberOfCategories[0] == |conjunctions|
    requires forall f, k :: 0 <= f < |conjunctions| && 0 <= k < |conjunctions[f]| ==> conjunctions[f][k] < |preds|
    requires forall j :: 0 <= j < |preds| ==> preds[j].index < meta.intAttributes
    requires RootOf(root, preds, conjunctions) && ValidDatum(d, meta)
    ensures ValidNode(root, meta) && d.categories[0] < |conjunctions|
    ensures Reach(root, d, meta) == Leaf(AllTrue(preds, conjunctions[d.categories[0]], d))
  {
    hide ConjunctionTree, AllTrue;
    forall f | 0 <= f < |conjunctions| ensures ValidNode(ConjunctionTree(preds, conjunctions[f]), meta) {
      ConjunctionTreeMeaning(preds, conjunctions[f], d, meta);
    }
    ConjunctionTreeMeaning(preds, conjunctions[d.categories[0]], d, meta);
  }

  /** The tree outputs, on every data point, whether the point satisfies its conjunction. */
  lemma ConjunctionsTreeMeaning(meta: Metadata, preds: seq<DerivedPredicate>, conjunctions: seq<seq<nat>>, root: Node,
                                data: seq<Datum>, derived: seq<Datum>, p: nat)
    requires |meta.numberOfCategories| > 0 && meta.numberOfCategories[0] == |conjunctions|
    requires forall f, k :: 0 <= f < |conjunctions| && 0 <= k < |conjunctions[f]| ==> conjunctions[f][k] < |preds|
    requires forall j :: 0 <= j < |preds| ==> preds[j].index < meta.intAttributes
    requires RootOf(root, preds, conjunctions)
    requires p < |data| && ValidData(data, meta) && DataDerivedFrom(derived, data, preds)
    ensures ValidNode(root, meta) && Fits(derived, |conjunctions|)
    ensures Output(root, data[p], meta) == Some(Holds(derived, SetsOf(conjunctions), p))
  {
    hide ConjunctionTree, AllTrue, RootOf;
    forall q | 0 <= q < |data|
      ensures derived[q].categories == data[q].categories && derived[q].categories[0] < |conjunctions|
    {
      assert ValidDatum(data[q], meta) && DerivedFrom(derived[q], data[q], preds);
    }
    RootValid(meta, preds, conjunctions, root, data[p]);
    var f := data[p].categories[0];
    SatisfiesIsAllTrue(preds, conjunctions[f], SetsOf(conjunctions)[f], data[p], derived[p]);
  }

  // ---------- the prephase ----------

  /** A conjunctive hypothesis in the original terms: predicates over the attributes of each category. */
  type Choice = seq<set<DerivedPredicate>>

  ghost predicate LegalChoice(choice: Choice, intervals: seq<Interval>, bound: nat) {
    && |choice| == |intervals|
    && forall f, pred :: 0 <= f < |choice| && pred in choice[f] ==> Over(pred, intervals[f], bound)
  }

  /** The points that satisfy all predicates chosen for their category. */
  ghost function ChoiceSet(data: seq<Datum>, choice: Choice): set<nat> {
    set p | 0 <= p < |data| && |data[p].categories| > 0 && data[p].categories[0] < |choice| &&
            forall pred :: pred in choice[data[p].categories[0]] ==> pred.index < |data[p].ints| && True(pred, data[p])
  }

  /** Does the point satisfy all predicates chosen for its category? */
  ghost predicate Selects(choice: Choice, d: Datum) {
    && |d.categories| > 0 && d.categories[0] < |choice|
    && forall pred :: pred in choice[d.categories[0]] ==> pred.index < |d.ints| && True(pred, d)
  }

  /** The choice makes the positive points true and satisfies the constraints. */
  ghost predicate AdmissibleChoice(data: seq<Datum>, labels: seq<Label>, hs: seq<Constraint>, intervals: seq<Interval>,
                                   bound: nat, choice: Choice) {
    && LegalChoice(choice, intervals, bound)
    && (forall p :: 0 <= p < |labels| && labels[p] == Classified(true) ==> p in ChoiceSet(data, choice))
    && forall k :: 0 <= k < |hs| ==> Satisfies(ChoiceSet(data, choice), hs[k])
  }

  /** The choice is admissible and contains all others that are. */
  ghost predicate StrongestChoice(data: seq<Datum>, labels: seq<Label>, hs: seq<Constraint>, intervals: seq<Interval>,
                                  bound: nat, K: Choice) {
    && AdmissibleChoice(data, labels, hs, intervals, bound, K)
    && forall choice :: AdmissibleChoice(data, labels, hs, intervals, bound, choice) ==>
         forall f :: 0 <= f < |intervals| ==> choice[f] <= K[f]
  }

  /** On every datum, in the sample or not, the tree says whether the choice selects it. */
  ghost predicate DecidedBy(tree: Node, meta: Metadata, K: Choice) {
    ValidNode(tree, meta) && forall d :: ValidDatum(d, meta) ==> Output(tree, d, meta) == Some(Selects(K, d))
  }

  /** The tree of the strongest admissible choice. */
  ghost predicate StrongestTree(tree: Node, meta: Metadata, data: seq<Datum>, labels: seq<Label>, hs: seq<Constraint>,
                                intervals: seq<Interval>, bound: nat) {
    exists K :: StrongestChoice(data, labels, hs, intervals, bound, K) && DecidedBy(tree, meta, K)
  }

  /** Some choice is a model of the whole sample. */
  ghost predicate SomeChoice(data: seq<Datum>, labels: seq<Label>, hs: seq<Constraint>, intervals: seq<Interval>,
                             bound: nat) {
    exists choice :: LegalChoice(choice, intervals, bound) && Model(ChoiceSet(data, choice), labels, hs)
  }

  /** The first interval is not empty, and those that are not lie within the attributes. */
  ghost predicate IntervalsInRange(intervals: seq<Interval>, attributes: nat) {
    && (intervals != [] ==> intervals[0].first <= intervals[0].last)
    && forall i :: 0 <= i < |intervals| && intervals[i].first <= intervals[i].last ==> intervals[i].last < attributes
  }

  ghost predicate ValidIntervals(meta: Metadata, intervals: seq<Interval>) {
    && |meta.numberOfCategories| > 0 && meta.numberOfCategories[0] == |intervals|
    && IntervalsInRange(intervals, meta.intAttributes)
  }

  /** The positions of the chosen predicates. */
  ghost function PositionsOf(choice: Choice, preds: seq<DerivedPredicate>, derived: seq<Interval>): Hypothesis
    requires |choice| == |derived|
  {
    seq(|choice|, f requires 0 <= f < |choice| =>
      set j | derived[f].first <= j <= derived[f].last && j < |preds| && preds[j] in choice[f])
  }

  /** The initial conjunctions: all predicates of each interval. */
  method InitialConjunctions(derived: seq<Interval>) returns (conjunctions: seq<seq<nat>>)
    requires forall i :: 0 <= i < |derived| ==> derived[i].first <= derived[i].last + 1
    ensures |conjunctions| == |derived|
    ensures forall f, c: nat :: 0 <= f < |derived| ==>
              (c in conjunctions[f] <==> derived[f].first <= c <= derived[f].last)
  {
    conjunctions := [];
    var i := 0;
    while i < |derived|
      invariant 0 <= i <= |derived| && |conjunctions| == i
      invariant forall f, c: nat :: 0 <= f < i ==> (c in conjunctions[f] <==> derived[f].first <= c <= derived[f].last)
    {
      var list: seq<nat> := [];
      var j := derived[i].first;
      while j <= derived[i].last
        invariant derived[i].first <= j <= derived[i].last + 1
        invariant forall c: nat :: c in list <==> derived[i].first <= c < j
      {
        list := list + [j];
        j := j + 1;
      }
      conjunctions := conjunctions + [list];
      i := i + 1;
    }
  }

  /** Everything the prephase derives from the sample. */
  ghost predicate Prepared(data: seq<Datum>, intervals: seq<Interval>, bound: nat, preds: seq<DerivedPredicate>,
                           derived: seq<Interval>, points: seq<Datum>, start: Hypothesis) {
    && |derived| == |intervals| == |start|
    && DataDerivedFrom(points, data, preds) && Fits(points, |start|)
    && (forall f, c: nat :: 0 <= f < |start| ==> (c in start[f] <==> derived[f].first <= c <= derived[f].last))
    && (forall f :: 0 <= f < |derived| ==>
          derived[f].first <= derived[f].last + 1 && derived[f].last < |preds| &&
            Exactly(Piece(preds, derived[f]), intervals[f], bound))
  }

  lemma PositionsMean(data: seq<Datum>, intervals: seq<Interval>, bound: nat, preds: seq<DerivedPredicate>,
                      derived: seq<Interval>,
                      points: seq<Datum>, start: Hypothesis, choice: Choice)
    requires Prepared(data, intervals, bound, preds, derived, points, start) && LegalChoice(choice, intervals, bound)
    ensures Within(PositionsOf(choice, preds, derived), start)
    ensures HypothesisSet(points, PositionsOf(choice, preds, derived)) == ChoiceSet(data, choice)
  {
    var H := PositionsOf(choice, preds, derived);
    forall p | 0 <= p < |data| ensures Holds(points, H, p) <==> p in ChoiceSet(data, choice) {
      assert DerivedFrom(points[p], data[p], preds);
      var f := data[p].categories[0];
      if Holds(points, H, p) {
        forall pred | pred in choice[f] ensures pred.index < |data[p].ints| && True(pred, data[p]) {
          assert pred in Piece(preds, derived[f]);
          var k :| 0 <= k < |Piece(preds, derived[f])| && Piece(preds, derived[f])[k] == pred;
          assert derived[f].first + k in H[f];
        }
      }
    }
  }

  /** The chosen predicates at given positions. */
  ghost function ChoiceOf(H: Hypothesis, preds: seq<DerivedPredicate>): Choice {
    seq(|H|, f requires 0 <= f < |H| => set j | j in H[f] && j < |preds| :: preds[j])
  }

  lemma ChoiceMeans(data: seq<Datum>, intervals: seq<Interval>, bound: nat, preds: seq<DerivedPredicate>,
                    derived: seq<Interval>,
                    points: seq<Datum>, start: Hypothesis, H: Hypothesis)
    requires Prepared(data, intervals, bound, preds, derived, points, start) && Within(H, start)
    ensures LegalChoice(ChoiceOf(H, preds), intervals, bound)
    ensures HypothesisSet(points, H) == ChoiceSet(data, ChoiceOf(H, preds))
  {
    var choice := ChoiceOf(H, preds);
    forall f, pred | 0 <= f < |choice| && pred in choice[f] ensures Over(pred, intervals[f], bound) {
      var j :| j in H[f] && j < |preds| && preds[j] == pred;
      assert j in start[f];
      assert Piece(preds, derived[f])[j - derived[f].first] == pred;
    }
    forall p | 0 <= p < |data| ensures Holds(points, H, p) <==> p in ChoiceSet(data, choice) {
      assert DerivedFrom(points[p], data[p], preds);
      var f := data[p].categories[0];
      forall c | c in H[f] ensures c < |preds| && preds[c] in choice[f] { assert c in start[f]; }
    }
  }

  /** The learnt conjunctions are consistent with the whole sample if any choice of predicates is. */
  lemma StrongestDecides(data: seq<Datum>, meta: Metadata, labels: seq<Label>, hs: seq<Constraint>,
                         intervals: seq<Interval>, bound: nat,
                         preds: seq<DerivedPredicate>, derived: seq<Interval>, points: seq<Datum>, start: Hypothesis,
                         K: Hypothesis, tree: Node)
    requires |labels| == |data| && ValidData(data, meta) && ValidNode(tree, meta)
    requires Prepared(data, intervals, bound, preds, derived, points, start)
    requires Candidate(points, labels, hs, start, K)
    requires forall H :: Candidate(points, labels, hs, start, H) ==> Within(H, K)
    requires forall p :: 0 <= p < |data| ==> Output(tree, data[p], meta) == Some(Holds(points, K, p))
    ensures Consistent(tree, data, meta, labels, hs) <==>
            exists choice :: LegalChoice(choice, intervals, bound) && Model(ChoiceSet(data, choice), labels, hs)
  {
    assert TruePoints(tree, data, meta) == HypothesisSet(points, K);
    if Consistent(tree, data, meta, labels, hs) {
      ChoiceMeans(data, intervals, bound, preds, derived, points, start, K);
      assert Model(ChoiceSet(data, ChoiceOf(K, preds)), labels, hs);
    }
    if choice :| LegalChoice(choice, intervals, bound) && Model(ChoiceSet(data, choice), labels, hs) {
      var H := PositionsOf(choice, preds, derived);
      ChoiceIsCandidate(data, labels, hs, intervals, bound, preds, derived, points, start, choice);
      forall p: nat | LabelOf(labels, p).Classified?
        ensures p in HypothesisSet(points, K) <==> LabelOf(labels, p).value
      {
        if p in HypothesisSet(points, K) { WeakerHolds(points, H, K, p); }
        assert p in HypothesisSet(points, H) <==> LabelOf(labels, p).value;
      }
    }
  }

  /** Admissible choices are the admissible hypotheses over the derived predicates. */
  lemma AdmissibleIsCandidate(data: seq<Datum>, labels: seq<Label>, hs: seq<Constraint>, intervals: seq<Interval>,
                              bound: nat, preds: seq<DerivedPredicate>, derived: seq<Interval>, points: seq<Datum>,
                              start: Hypothesis, choice: Choice)
    requires |labels| == |data| && Prepared(data, intervals, bound, preds, derived, points, start)
    requires AdmissibleChoice(data, labels, hs, intervals, bound, choice)
    ensures Candidate(points, labels, hs, start, PositionsOf(choice, preds, derived))
  {
    var H := PositionsOf(choice, preds, derived);
    PositionsMean(data, intervals, bound, preds, derived, points, start, choice);
    forall p | 0 <= p < |labels| && labels[p] == Classified(true) ensures Holds(points, H, p) {
      assert p in HypothesisSet(points, H);
    }
  }

  lemma CandidateIsAdmissible(data: seq<Datum>, labels: seq<Label>, hs: seq<Constraint>, intervals: seq<Interval>,
                              bound: nat, preds: seq<DerivedPredicate>, derived: seq<Interval>, points: seq<Datum>,
                              start: Hypothesis, H: Hypothesis)
    requires |labels| == |data| && Prepared(data, intervals, bound, preds, derived, points, start)
    requires Candidate(points, labels, hs, start, H)
    ensures AdmissibleChoice(data, labels, hs, intervals, bound, ChoiceOf(H, preds))
  {
    ChoiceMeans(data, intervals, bound, preds, derived, points, start, H);
    forall p | 0 <= p < |labels| && labels[p] == Classified(true) ensures p in ChoiceSet(data, ChoiceOf(H, preds)) {
      assert p in HypothesisSet(points, H);
    }
  }

  /** The strongest hypothesis is the strongest choice. */
  lemma StrongestIsChoice(data: seq<Datum>, labels: seq<Label>, hs: seq<Constraint>, intervals: seq<Interval>,
                          bound: nat, preds: seq<DerivedPredicate>, derived: seq<Interval>, points: seq<Datum>,
                          start: Hypothesis, K: Hypothesis)
    requires |labels| == |data| && Prepared(data, intervals, bound, preds, derived, points, start)
    requires Candidate(points, labels, hs, start, K)
    requires forall H :: Candidate(points, labels, hs, start, H) ==> Within(H, K)
    ensures StrongestChoice(data, labels, hs, intervals, bound, ChoiceOf(K, preds))
  {
    hide Candidate;
    CandidateIsAdmissible(data, labels, hs, intervals, bound, preds, derived, points, start, K);
    CandidateWithin(points, labels, hs, start, K);
    forall choice | AdmissibleChoice(data, labels, hs, intervals, bound, choice)
      ensures forall f :: 0 <= f < |intervals| ==> choice[f] <= ChoiceOf(K, preds)[f]
    {
      AdmissibleIsCandidate(data, labels, hs, intervals, bound, preds, derived, points, start, choice);
      var H := PositionsOf(choice, preds, derived);
      forall f, pred | 0 <= f < |intervals| && pred in choice[f] ensures pred in ChoiceOf(K, preds)[f] {
        assert pred in Piece(preds, derived[f]);
        var k :| 0 <= k < |Piece(preds, derived[f])| && Piece(preds, derived[f])[k] == pred;
        assert derived[f].first + k in H[f];
        assert derived[f].first + k in K[f];
      }
    }
  }

  lemma CandidateWithin(points: seq<Datum>, labels: seq<Label>, hs: seq<Constraint>, start: Hypothesis, K: Hypothesis)
    requires Fits(points, |start|) && Candidate(points, labels, hs, start, K)
    ensures Within(K, start)
  {
  }

  /** The tree of the conjunctions says, on every datum, whether their choice selects it. */
  lemma ConjunctionsDecide(meta: Metadata, preds: seq<DerivedPredicate>, conjunctions: seq<seq<nat>>, root: Node)
    requires |meta.numberOfCategories| > 0 && meta.numberOfCategories[0] == |conjunctions|
    requires forall f, k :: 0 <= f < |conjunctions| && 0 <= k < |conjunctions[f]| ==> conjunctions[f][k] < |preds|
    requires forall j :: 0 <= j < |preds| ==> preds[j].index < meta.intAttributes
    requires RootOf(root, preds, conjunctions)
    ensures DecidedBy(root, meta, ChoiceOf(SetsOf(conjunctions), preds))
  {
    hide RootOf;
    var K := ChoiceOf(SetsOf(conjunctions), preds);
    ConjunctionsValid(meta, preds, conjunctions, root);
    forall d | ValidDatum(d, meta) ensures Output(root, d, meta) == Some(Selects(K, d)) {
      RootValid(meta, preds, conjunctions, root, d);
      var f := d.categories[0];
      if AllTrue(preds, conjunctions[f], d) {
        forall pred: DerivedPredicate | pred in K[f] ensures pred.index < |d.ints| && True(pred, d) {
          var j :| j in SetsOf(conjunctions)[f] && j < |preds| && preds[j] == pred;
        }
      }
      if Selects(K, d) {
        forall k | 0 <= k < |conjunctions[f]|
          ensures preds[conjunctions[f][k]].index < |d.ints| && True(preds[conjunctions[f][k]], d) {
          assert conjunctions[f][k] in SetsOf(conjunctions)[f];
          assert preds[conjunctions[f][k]] in K[f];
        }
      }
    }
  }

  lemma ChoiceIsCandidate(data: seq<Datum>, labels: seq<Label>, hs: seq<Constraint>, intervals: seq<Interval>,
                          bound: nat,
                          preds: seq<DerivedPredicate>, derived: seq<Interval>, points: seq<Datum>, start: Hypothesis,
                          choice: Choice)
    requires |labels| == |data| && Prepared(data, intervals, bound, preds, derived, points, start)
    requires LegalChoice(choice, intervals, bound) && Model(ChoiceSet(data, choice), labels, hs)
    ensures var H := PositionsOf(choice, preds, derived);
            Candidate(points, labels, hs, start, H) && Model(HypothesisSet(points, H), labels, hs)
  {
    var H := PositionsOf(choice, preds, derived);
    PositionsMean(data, intervals, bound, preds, derived, points, start, choice);
    forall p | 0 <= p < |labels| && labels[p] == Classified(true) ensures Holds(points, H, p) {
      assert LabelOf(labels, p) == Classified(true);
      assert p in HypothesisSet(points, H);
    }
  }

  /**
   The prephase decides whether some conjunctive hypothesis is consistent with the whole sample: it
   returns a tree, and the tree is consistent, exactly if there is one.  The tree is that of the strongest
   hypothesis that makes the positive points true and satisfies the constraints, on all data.
   */
  method HorndiniPrephase(data: seq<Datum>, meta: Metadata, labels: seq<Label>, hs: seq<Constraint>,
                          intervals: seq<Interval>, bound: nat)
    returns (r: Option<Node>)
    requires ValidData(data, meta) && AllWellFormed(hs, |data|) && |labels| == |data| && ValidIntervals(meta, intervals)
    ensures r.Some? ==> ValidNode(r.value, meta) && Total(r.value, data, meta) && InBlocks(r.value, intervals)
    ensures r.Some? ==> forall a :: CutsAtMost(r.value, a, bound)
    ensures (r.Some? && Consistent(r.value, data, meta, labels, hs)) <==> SomeChoice(data, labels, hs, intervals, bound)
    ensures r.None? <==> forall choice :: !AdmissibleChoice(data, labels, hs, intervals, bound, choice)
    ensures r.Some? ==> StrongestTree(r.value, meta, data, labels, hs, intervals, bound)
  {
    var preds, derived := GeneratePredicates(intervals, bound);
    PredsInRange(meta, intervals, bound, preds, derived);
    assert forall p :: 0 <= p < |data| ==> ValidDatum(data[p], meta);
    var points := GenerateDatapoints(data, preds);
    var conjunctions := InitialConjunctions(derived);
    ghost var start := SetsOf(conjunctions);
    PrepareSample(data, meta, intervals, bound, preds, derived, points, conjunctions, hs);
    var ok, result := Learn(points, labels, hs, conjunctions);
    if !ok {
      forall choice | LegalChoice(choice, intervals, bound) && Model(ChoiceSet(data, choice), labels, hs)
        ensures false
      {
        ChoiceIsCandidate(data, labels, hs, intervals, bound, preds, derived, points, start, choice);
      }
      forall choice ensures !AdmissibleChoice(data, labels, hs, intervals, bound, choice) {
        if AdmissibleChoice(data, labels, hs, intervals, bound, choice) {
          AdmissibleIsCandidate(data, labels, hs, intervals, bound, preds, derived, points, start, choice);
        }
      }
      r := None;
    } else {
      ResultInRange(derived, preds, conjunctions, result);
      var tree := ConjunctionsTree(meta, preds, result);
      TreeMeans(meta, preds, result, tree, data, points);
      TreeInBlocks(intervals, bound, preds, derived, conjunctions, result, tree);
      StrongestDecides(data, meta, labels, hs, intervals, bound, preds, derived, points, start, SetsOf(result), tree);
      StrongestIsChoice(data, labels, hs, intervals, bound, preds, derived, points, start, SetsOf(result));
      ConjunctionsDecide(meta, preds, result, tree);
      r := Some(tree);
    }
  }

  lemma PredsInRange(meta: Metadata, intervals: seq<Interval>, bound: nat, preds: seq<DerivedPredicate>,
                     derived: seq<Interval>)
    requires ValidIntervals(meta, intervals) && |derived| == |intervals| && Cut(derived, |preds|)
    requires forall i :: 0 <= i < |derived| ==>
               derived[i].last < |preds| && Exactly(Piece(preds, derived[i]), intervals[i], bound)
    ensures forall j :: 0 <= j < |preds| ==> preds[j].index < meta.intAttributes
  {
    forall j | 0 <= j < |preds| ensures preds[j].index < meta.intAttributes {
      var i := CutFind(derived, |preds|, j);
      assert Piece(preds, derived[i])[j - derived[i].first] == preds[j];
      assert Over(preds[j], intervals[i], bound);
    }
  }

  lemma {:induction false} CutFind(derived: seq<Interval>, length: nat, j: nat) returns (i: nat)
    requires Cut(derived, length) && j < length
    ensures i < |derived| && derived[i].first <= j <= derived[i].last
  {
    i := |derived| - 1;
    if j < derived[i].first {
      i := CutFind(derived[..i], derived[i].first, j);
    }
  }

  lemma PrepareSample(data: seq<Datum>, meta: Metadata, intervals: seq<Interval>, bound: nat,
                      preds: seq<DerivedPredicate>,
                      derived: seq<Interval>, points: seq<Datum>, conjunctions: seq<seq<nat>>, hs: seq<Constraint>)
    requires ValidData(data, meta) && AllWellFormed(hs, |data|) && ValidIntervals(meta, intervals)
    requires |derived| == |intervals| == |conjunctions| && Cut(derived, |preds|) && DataDerivedFrom(points, data, preds)
    requires forall i :: 0 <= i < |derived| ==>
               derived[i].last < |preds| && Exactly(Piece(preds, derived[i]), intervals[i], bound)
    requires forall f, c: nat :: 0 <= f < |derived| ==>
               (c in conjunctions[f] <==> derived[f].first <= c <= derived[f].last)
    ensures Legal(points, hs, conjunctions)
    ensures Prepared(data, intervals, bound, preds, derived, points, SetsOf(conjunctions))
  {
    forall p | 0 <= p < |points|
      ensures points[p].categories == data[p].categories && |points[p].ints| == |preds| && ValidDatum(data[p], meta)
    {
      assert DerivedFrom(points[p], data[p], preds);
    }
    forall f, k | 0 <= f < |conjunctions| && 0 <= k < |conjunctions[f]| ensures conjunctions[f][k] < |preds| {
      assert conjunctions[f][k] in conjunctions[f];
    }
  }

  lemma ResultInRange(derived: seq<Interval>, preds: seq<DerivedPredicate>, conjunctions: seq<seq<nat>>,
                      result: seq<seq<nat>>)
    requires |derived| == |conjunctions| && Within(SetsOf(result), SetsOf(conjunctions))
    requires forall i :: 0 <= i < |derived| ==> derived[i].last < |preds|
    requires forall f, c: nat :: 0 <= f < |derived| ==>
               (c in conjunctions[f] <==> derived[f].first <= c <= derived[f].last)
    ensures forall f, k :: 0 <= f < |result| && 0 <= k < |result[f]| ==> result[f][k] < |preds|
  {
    forall f, k | 0 <= f < |result| && 0 <= k < |result[f]| ensures result[f][k] < |preds| {
      assert result[f][k] in SetsOf(result)[f];
      assert result[f][k] in SetsOf(conjunctions)[f];
    }
  }

  lemma TreeMeans(meta: Metadata, preds: seq<DerivedPredicate>, conjunctions: seq<seq<nat>>, root: Node,
                  data: seq<Datum>, derived: seq<Datum>)
    requires |meta.numberOfCategories| > 0 && meta.numberOfCategories[0] == |conjunctions|
    requires forall f, k :: 0 <= f < |conjunctions| && 0 <= k < |conjunctions[f]| ==> conjunctions[f][k] < |preds|
    requires forall j :: 0 <= j < |preds| ==> preds[j].index < meta.intAttributes
    requires RootOf(root, preds, conjunctions) && ValidData(data, meta) && DataDerivedFrom(derived, data, preds)
    requires Fits(derived, |conjunctions|)
    ensures ValidNode(root, meta)
    ensures forall p :: 0 <= p < |data| ==> Output(root, data[p], meta) == Some(Holds(derived, SetsOf(conjunctions), p))
  {
    assert ValidNode(root, meta) by { ConjunctionsValid(meta, preds, conjunctions, root); }
    forall p | 0 <= p < |data| ensures Output(root, data[p], meta) == Some(Holds(derived, SetsOf(conjunctions), p)) {
      ConjunctionsTreeMeaning(meta, preds, conjunctions, root, data, derived, p);
    }
  }

  lemma {:induction false} ConjunctionValid(meta: Metadata, preds: seq<DerivedPredicate>, conjunction: seq<nat>)
    requires forall k :: 0 <= k < |conjunction| ==> conjunction[k] < |preds|
    requires forall j :: 0 <= j < |preds| ==> preds[j].index < meta.intAttributes
    ensures ValidNode(ConjunctionTree(preds, conjunction), meta)
  {
    if conjunction != [] {
      ConjunctionValid(meta, preds, conjunction[1..]);
    }
  }

  lemma ConjunctionsValid(meta: Metadata, preds: seq<DerivedPredicate>, conjunctions: seq<seq<nat>>, root: Node)
    requires |meta.numberOfCategories| > 0 && meta.numberOfCategories[0] == |conjunctions|
    requires forall f, k :: 0 <= f < |conjunctions| && 0 <= k < |conjunctions[f]| ==> conjunctions[f][k] < |preds|
    requires forall j :: 0 <= j < |preds| ==> preds[j].index < meta.intAttributes
    requires RootOf(root, preds, conjunctions)
    ensures ValidNode(root, meta)
  {
    forall f | 0 <= f < |conjunctions| ensures ValidNode(ConjunctionTree(preds, conjunctions[f]), meta) {
      ConjunctionValid(meta, preds, conjunctions[f]);
    }
  }

  lemma {:induction false} ConjunctionWithin(preds: seq<DerivedPredicate>, conjunction: seq<nat>, block: Interval,
                                             bound: nat)
    requires forall k :: 0 <= k < |conjunction| ==>
               conjunction[k] < |preds| && Over(preds[conjunction[k]], block, bound)
    ensures IntTree(ConjunctionTree(preds, conjunction)) && TestsWithin(ConjunctionTree(preds, conjunction), block)
    ensures forall a :: CutsAtMost(ConjunctionTree(preds, conjunction), a, bound)
  {
    if conjunction != [] {
      ConjunctionWithin(preds, conjunction[1..], block, bound);
      var rest, node := ConjunctionTree(preds, conjunction[1..]), ConjunctionTree(preds, conjunction);
      if preds[conjunction[0]].kind == EQ {
        assert IntTree(node.left) && TestsWithin(node.left, block);
        assert forall a :: CutsAtMost(node.left, a, bound);
      }
    }
  }

  /** The tree of the prephase tests, for each category, attributes of that category only. */
  lemma TreeInBlocks(intervals: seq<Interval>, bound: nat, preds: seq<DerivedPredicate>, derived: seq<Interval>,
                     conjunctions: seq<seq<nat>>, result: seq<seq<nat>>, root: Node)
    requires |derived| == |intervals| == |conjunctions| && Within(SetsOf(result), SetsOf(conjunctions))
    requires forall i :: 0 <= i < |derived| ==>
               derived[i].first <= derived[i].last + 1 && derived[i].last < |preds| &&
                 Exactly(Piece(preds, derived[i]), intervals[i], bound)
    requires forall f, c: nat :: 0 <= f < |derived| ==>
               (c in conjunctions[f] <==> derived[f].first <= c <= derived[f].last)
    requires forall f, k :: 0 <= f < |result| && 0 <= k < |result[f]| ==> result[f][k] < |preds|
    requires RootOf(root, preds, result)
    ensures InBlocks(root, intervals) && forall a :: CutsAtMost(root, a, bound)
  {
    forall f | 0 <= f < |result|
      ensures IntTree(root.children[f]) && TestsWithin(root.children[f], intervals[f])
      ensures forall a :: CutsAtMost(root.children[f], a, bound)
    {
      forall k | 0 <= k < |result[f]| ensures Over(preds[result[f][k]], intervals[f], bound) {
        var c := result[f][k];
        assert c in SetsOf(result)[f] && c in SetsOf(conjunctions)[f];
        assert Piece(preds, derived[f])[c - derived[f].first] == preds[c];
      }
      ConjunctionWithin(preds, result[f], intervals[f], bound);
    }
  }
}
