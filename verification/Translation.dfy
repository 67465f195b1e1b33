/**
 Turning decision trees into formulas over the arguments of the relations.
 */
module Translation {
  import opened Horn
  import opened Tree
  import opened Encoding

  datatype Formula =
    | Const(value: bool)
    | AtMost(attribute: Attribute, threshold: int)
    | MoreThan(attribute: Attribute, threshold: int)
    | Truth(attribute: Attribute, constant: bool)     // the conjunction of a Boolean attribute with a constant
    | And(left: Formula, right: Formula)
    | Or(left: Formula, right: Formula)

  predicate AttributesBelow(node: Node, n: nat) {
    match node
    case IntNode(a, _, l, r) => a < n && AttributesBelow(l, n) && AttributesBelow(r, n)
    case _ => true
  }

  predicate IsBool(attribute: Attribute, relations: seq<seq<Sort>>) {
    attribute.term.Argument? && attribute.relation < |relations| &&
    attribute.term.i < |relations[attribute.relation]| && relations[attribute.relation][attribute.term.i] == BoolSort
  }

  function LeftTest(attribute: Attribute, threshold: int, relations: seq<seq<Sort>>): Formula {
    if IsBool(attribute, relations) then Truth(attribute, threshold == 1) else AtMost(attribute, threshold)
  }

  function RightTest(attribute: Attribute, threshold: int, relations: seq<seq<Sort>>): Formula {
    if IsBool(attribute, relations) then Truth(attribute, threshold != 1) else MoreThan(attribute, threshold)
  }

  /** The formula for one side of a node; none if it is a negative leaf. */
  function Side(child: Node, test: Formula, attributes: seq<Attribute>, relations: seq<seq<Sort>>): Option<Formula>
    requires IntTree(child) && AttributesBelow(child, |attributes|)
    decreases child, 1
  {
    match child
    case Leaf(output) => if output then Some(test) else None
    case IntNode(_, _, _, _) => Some(And(ToFormula(child, attributes, relations), test))
  }

  /** The disjunction of the sides of an integer node that can be positive. */
  function ToFormula(node: Node, attributes: seq<Attribute>, relations: seq<seq<Sort>>): Formula
    requires node.IntNode? && IntTree(node) && AttributesBelow(node, |attributes|)
    decreases node, 0
  {
    var attribute := attributes[node.attribute];
    var left := Side(node.left, LeftTest(attribute, node.threshold, relations), attributes, relations);
    var right := Side(node.right, RightTest(attribute, node.threshold, relations), attributes, relations);
    match (left, right)
    case (Some(l), Some(r)) => Or(l, r)
    case (Some(l), None) => l
    case (None, Some(r)) => r
    case (None, None) => Const(false)
  }

  /** The formula for a child of the root. */
  function Translate(child: Node, attributes: seq<Attribute>, relations: seq<seq<Sort>>): Formula
    requires IntTree(child) && AttributesBelow(child, |attributes|)
  {
    match child
    case Leaf(output) => Const(output)
    case IntNode(_, _, _, _) => ToFormula(child, attributes, relations)
  }

  // ---------- meaning ----------

  /** The value of an integer-sorted attribute on the arguments of its relation. */
  function AttributeValue(attribute: Attribute, values: seq<Value>): int {
    if FitsArity(attribute.term, SortsOf(values)) then ToInt(EvalTerm(attribute.term, values)) else 0
  }

  predicate EvalFormula(formula: Formula, values: seq<Value>) {
    match formula
    case Const(value) => value
    case AtMost(attribute, threshold) => AttributeValue(attribute, values) <= threshold
    case MoreThan(attribute, threshold) => AttributeValue(attribute, values) > threshold
    case Truth(attribute, constant) => AttributeValue(attribute, values) == 1 && constant
    case And(l, r) => EvalFormula(l, values) && EvalFormula(r, values)
    case Or(l, r) => EvalFormula(l, values) || EvalFormula(r, values)
  }

  /** The tree tests attributes of relation `f` only, and cuts Boolean ones at 1 or below. */
  ghost predicate Tests(node: Node, attributes: seq<Attribute>, f: nat, relations: seq<seq<Sort>>) {
    match node
    case IntNode(a, cut, l, r) =>
      && f < |relations| && a < |attributes| && attributes[a].relation == f &&
        FitsArity(attributes[a].term, relations[f])
      && (IsBool(attributes[a], relations) ==> cut <= 1)
      && Tests(l, attributes, f, relations) && Tests(r, attributes, f, relations)
    case _ => true
  }

  /** The attribute vector of a point of relation `f`: its own attributes on its arguments. */
  ghost predicate Encodes(d: Datum, f: nat, values: seq<Value>, attributes: seq<Attribute>) {
    && d.categories == [f] && |d.ints| == |attributes|
    && forall a :: 0 <= a < |attributes| && attributes[a].relation == f ==>
         FitsArity(attributes[a].term, SortsOf(values)) && d.ints[a] == ToInt(EvalTerm(attributes[a].term, values))
  }

  /** Every Boolean attribute that is tested on the way of the data point is true of it. */
  ghost predicate PassesTruths(node: Node, d: Datum, attributes: seq<Attribute>, relations: seq<seq<Sort>>) {
    match node
    case IntNode(a, cut, l, r) =>
      && a < |attributes| && a < |d.ints|
      && (IsBool(attributes[a], relations) ==> d.ints[a] == 1)
      && (if d.ints[a] <= cut then PassesTruths(l, d, attributes, relations)
        else PassesTruths(r, d, attributes, relations))
    case CategoricalNode(a, children) =>
      a < |d.categories| && d.categories[a] < |children| &&
        PassesTruths(children[d.categories[a]], d, attributes, relations)
    case _ => true
  }

  /**
   The formula is true of the arguments exactly if the tree outputs true on their attribute vector and
   every Boolean attribute tested on the way is true.  The second half is what conjoining a Boolean
   attribute with a constant, where a comparison is meant, costs; it is no restriction for integer sorts.
   */
  lemma {:induction false} TranslateMeaning(child: Node, attributes: seq<Attribute>, relations: seq<seq<Sort>>,
                                            f: nat, values: seq<Value>, d: Datum, meta: Metadata)
    requires IntTree(child) && AttributesBelow(child, |attributes|) && ValidNode(child, meta) && ValidDatum(d, meta)
    requires f < |relations| && relations[f] == SortsOf(values)
    requires Tests(child, attributes, f, relations) && Encodes(d, f, values, attributes)
    ensures EvalFormula(Translate(child, attributes, relations), values) <==>
              Reach(child, d, meta) == Leaf(true) && PassesTruths(child, d, attributes, relations)
  {
    if child.IntNode? {
      TranslateMeaning(child.left, attributes, relations, f, values, d, meta);
      TranslateMeaning(child.right, attributes, relations, f, values, d, meta);
      var attribute := attributes[child.attribute];
      assert AttributeValue(attribute, values) == d.ints[child.attribute];
      SideMeaning(child.left, LeftTest(attribute, child.threshold, relations), attributes, relations, values);
      SideMeaning(child.right, RightTest(attribute, child.threshold, relations), attributes, relations, values);
    }
  }

  ghost predicate SideTrue(side: Option<Formula>, values: seq<Value>) {
    side.Some? && EvalFormula(side.value, values)
  }

  lemma SideMeaning(child: Node, test: Formula, attributes: seq<Attribute>, relations: seq<seq<Sort>>,
                    values: seq<Value>)
    requires IntTree(child) && AttributesBelow(child, |attributes|)
    ensures SideTrue(Side(child, test, attributes, relations), values) <==>
              EvalFormula(Translate(child, attributes, relations), values) && EvalFormula(test, values)
  {
  }

  ghost predicate IntSorted(sorts: seq<Sort>) {
    forall i :: 0 <= i < |sorts| ==> sorts[i] == IntSort
  }

  /** Over integer-sorted arguments, no test is over a Boolean attribute. */
  lemma {:induction false} IntSortedPasses(node: Node, d: Datum, attributes: seq<Attribute>, relations: seq<seq<Sort>>,
                                           f: nat)
    requires IntTree(node) && f < |relations| && IntSorted(relations[f])
    requires Tests(node, attributes, f, relations) && |d.ints| == |attributes|
    ensures PassesTruths(node, d, attributes, relations)
  {
    if node.IntNode? {
      IntSortedPasses(node.left, d, attributes, relations, f);
      IntSortedPasses(node.right, d, attributes, relations, f);
    }
  }

  /** A Boolean argument on which meaning is lost: the tree for the negation becomes the formula for false. */
  lemma NegationLost()
    ensures var tree := IntNode(0, -1, Leaf(true), Leaf(false));
            var attributes := [Attribute(0, Argument(0))];
            var d := Datum([0], [-1]);
            && Encodes(d, 0, [BoolValue(false)], attributes)
            && Tests(tree, attributes, 0, [[BoolSort]])
            && Reach(tree, d, Metadata([1], 1)) == Leaf(true)
            && !EvalFormula(Translate(tree, attributes, [[BoolSort]]), [BoolValue(false)])
  {
    var tree := IntNode(0, -1, Leaf(true), Leaf(false));
    assert AttributesBelow(tree.left, 1) && AttributesBelow(tree.right, 1);
    assert Translate(tree, [Attribute(0, Argument(0))], [[BoolSort]]) == Truth(Attribute(0, Argument(0)), false);
  }

  // ---------- all relations ----------

  /** Every subtree of the root can be translated. */
  predicate Translatable(root: Node, n: nat) {
    root.CategoricalNode? &&
    forall i :: 0 <= i < |root.children| && root.children[i].IntNode? ==>
      IntTree(root.children[i]) && AttributesBelow(root.children[i], n)
  }

  /**
   The formula of a child; a missing child takes over that of the child before it, and a missing first one is
   false.
   */
  function ChildFormula(root: Node, f: nat, attributes: seq<Attribute>, relations: seq<seq<Sort>>): Formula
    requires Translatable(root, |attributes|) && f < |root.children|
  {
    match root.children[f]
    case Leaf(output) => Const(output)
    case IntNode(_, _, _, _) => ToFormula(root.children[f], attributes, relations)
    case _ => if f == 0 then Const(false) else ChildFormula(root, f - 1, attributes, relations)
  }

  /**
   The conjectures that go with a tree: a leaf goes to all relations, and children to theirs.  Relations the
   tree says nothing about get any truth value.
   */
  ghost predicate ConjecturesOf(conjectures: seq<Formula>, root: Node, relations: seq<seq<Sort>>,
                                attributes: seq<Attribute>) {
    && |conjectures| == |relations|
    && (root.Leaf? ==> forall f :: 0 <= f < |relations| ==> conjectures[f] == Const(root.output))
    && (root.CategoricalNode? ==>
          |root.children| <= |relations| && Translatable(root, |attributes|) &&
          forall f :: 0 <= f < |root.children| ==> conjectures[f] == ChildFormula(root, f, attributes, relations))
    && (!root.Leaf? ==>
          forall f :: (if root.CategoricalNode? then |root.children| else 0) <= f < |relations| ==>
              conjectures[f].Const?)
  }

  /** Reads the conjectures off a tree. */
  method GetConjectures(root: Node, relations: seq<seq<Sort>>, attributes: seq<Attribute>)
    returns (conjectures: seq<Formula>)
    requires root.CategoricalNode? ==> |root.children| <= |relations| && Translatable(root, |attributes|)
    ensures ConjecturesOf(conjectures, root, relations, attributes)
  {
    conjectures := [];
    if root.CategoricalNode? {
      var formula := Const(false);
      var i := 0;
      while i < |root.children|
        invariant 0 <= i <= |root.children| && |conjectures| == i
        invariant formula == if i == 0 then Const(false) else ChildFormula(root, i - 1, attributes, relations)
        invariant forall f :: 0 <= f < i ==> conjectures[f] == ChildFormula(root, f, attributes, relations)
      {
        var child := root.children[i];
        if child.Leaf? {
          formula := Const(child.output);
        } else if child.IntNode? {
          formula := ToFormula(child, attributes, relations);
        }
        conjectures := conjectures + [formula];
        i := i + 1;
      }
    }
    ghost var given := |conjectures|;
    while |conjectures| < |relations|
      invariant given <= |conjectures| <= |relations|
      invariant root.Leaf? ==> forall f :: 0 <= f < |conjectures| ==> conjectures[f] == Const(root.output)
      invariant root.CategoricalNode? ==>
                  forall f :: 0 <= f < given ==> conjectures[f] == ChildFormula(root, f, attributes, relations)
      invariant forall f :: given <= f < |conjectures| ==> conjectures[f].Const?
      decreases |relations| - |conjectures|
    {
      var coin: bool := *;
      conjectures := conjectures + [Const(if root.Leaf? then root.output else coin)];
    }
  }

  // ---------- trees that the learner returns ----------

  /** The block of every relation. */
  function Blocks(numbering: Numbering): (blocks: seq<Interval>)
    requires |numbering.first| == |numbering.last|
    ensures |blocks| == |numbering.first|
    ensures forall f :: 0 <= f < |blocks| ==> blocks[f] == Interval(numbering.first[f], numbering.last[f])
  {
    seq(|numbering.first|, f requires 0 <= f < |numbering.first| => Interval(numbering.first[f], numbering.last[f]))
  }

  /** Boolean attributes, whose values are 1 and -1, are cut at 1 or below. */
  ghost predicate TruthCuts(node: Node, attributes: seq<Attribute>, relations: seq<seq<Sort>>) {
    forall a :: 0 <= a < |attributes| && IsBool(attributes[a], relations) ==> CutsAtMost(node, a, 1)
  }

  /** Tests within the block of a relation are over its attributes. */
  lemma {:induction false} BlockTests(node: Node, numbering: Numbering, relations: seq<seq<Sort>>, f: nat)
    requires Numbers(numbering, relations) && f < |relations|
    requires IntTree(node) && TestsWithin(node, Interval(numbering.first[f], numbering.last[f]))
    ensures AttributesBelow(node, |numbering.attributes|)
    ensures TruthCuts(node, numbering.attributes, relations) ==> Tests(node, numbering.attributes, f, relations)
  {
    hide AllTerms;
    if node.IntNode? {
      BlockTests(node.left, numbering, relations, f);
      BlockTests(node.right, numbering, relations, f);
      assert Block(numbering, f, relations[f]);
      var k := node.attribute - numbering.first[f];
      assert numbering.attributes[numbering.first[f] + k] == Attribute(f, AllTerms(relations[f])[k]);
    }
  }

  /**
   The conjecture of a relation is true of a point of it exactly if the tree outputs true on the attribute
   vector of the point and every Boolean attribute tested on the way is true.
   */
  lemma ConjecturesMean(root: Node, conjectures: seq<Formula>, numbering: Numbering, relations: seq<seq<Sort>>,
                        f: nat, values: seq<Value>, d: Datum, meta: Metadata)
    requires Numbers(numbering, relations) && f < |relations| && relations[f] == SortsOf(values)
    requires InBlocks(root, Blocks(numbering)) && TruthCuts(root, numbering.attributes, relations)
    requires ValidNode(root, meta) && ValidDatum(d, meta)
    requires ConjecturesOf(conjectures, root, relations, numbering.attributes) &&
               Encodes(d, f, values, numbering.attributes)
    requires Output(root, d, meta).Some?
    ensures EvalFormula(conjectures[f], values) <==>
              Output(root, d, meta) == Some(true) && PassesTruths(root, d, numbering.attributes, relations)
    ensures IntSorted(relations[f]) ==> PassesTruths(root, d, numbering.attributes, relations)
  {
    hide Numbers;
    if root.CategoricalNode? {
      var child := root.children[f];
      assert d.categories[0] == f;
      assert Reach(root, d, meta) == Reach(child, d, meta);
      BlocksAt(numbering, relations, f);
      BlockTests(child, numbering, relations, f);
      if IntSorted(relations[f]) {
        IntSortedPasses(child, d, numbering.attributes, relations, f);
      }
      TranslateMeaning(child, numbering.attributes, relations, f, values, d, meta);
    }
  }

  lemma BlocksAt(numbering: Numbering, relations: seq<seq<Sort>>, f: nat)
    requires Numbers(numbering, relations) && f < |relations|
    ensures Blocks(numbering)[f] == Interval(numbering.first[f], numbering.last[f])
  {
  }

  // ---------- encoded points ----------

  /**
   The vector of a point: the values of the terms of its relation in the block of the relation, and zeros
   elsewhere.
   */
  ghost predicate IsVector(ints: seq<int>, numbering: Numbering, relations: seq<seq<Sort>>, f: nat, values: seq<Value>)
    requires Numbers(numbering, relations)
  {
    && f < |relations| && SortsOf(values) == relations[f] && |ints| == |numbering.attributes|
    && forall k :: 0 <= k < |ints| ==>
         ints[k] == if numbering.first[f] <= k < numbering.first[f] + |AllTerms(relations[f])|
                    then ToInt(EvalTerm(AllTerms(relations[f])[k - numbering.first[f]], values)) else 0
  }

  /** The attribute vector computed for a point encodes it under the numbering of all relations. */
  lemma VectorEncodes(numbering: Numbering, relations: seq<seq<Sort>>, f: nat, values: seq<Value>, ints: seq<int>)
    requires Numbers(numbering, relations) && IsVector(ints, numbering, relations, f, values)
    ensures Encodes(Datum([f], ints), f, values, numbering.attributes)
  {
    hide AllTerms;
    forall a | 0 <= a < |numbering.attributes| && numbering.attributes[a].relation == f
      ensures FitsArity(numbering.attributes[a].term, SortsOf(values)) &&
              ints[a] == ToInt(EvalTerm(numbering.attributes[a].term, values))
    {
      OwnerOf(numbering, relations, a, |relations|);
      var k := a - numbering.first[f];
      assert numbering.attributes[numbering.first[f] + k] == Attribute(f, AllTerms(relations[f])[k]);
    }
  }

  /** An attribute lies in the block of its relation. */
  lemma {:induction false} OwnerOf(numbering: Numbering, relations: seq<seq<Sort>>, a: nat, n: nat)
    requires Numbers(numbering, relations) && a < |numbering.attributes| && 0 < n <= |relations|
    requires a <= numbering.last[n - 1]
    ensures var f := numbering.attributes[a].relation;
            f < |relations| && numbering.first[f] <= a <= numbering.last[f]
    decreases n
  {
    hide AllTerms;
    if numbering.first[n - 1] <= a {
      var k := a - numbering.first[n - 1];
      assert numbering.attributes[numbering.first[n - 1] + k] == Attribute(n - 1, AllTerms(relations[n - 1])[k]);
    } else {
      OwnerOf(numbering, relations, a, n - 1);
    }
  }

  /** Different points of a relation have different vectors: the arguments can be read off. */
  lemma VectorsDiffer(numbering: Numbering, relations: seq<seq<Sort>>, f: nat, a: seq<Value>, b: seq<Value>,
                      ints: seq<int>)
    requires Numbers(numbering, relations)
    requires IsVector(ints, numbering, relations, f, a) && IsVector(ints, numbering, relations, f, b)
    ensures a == b
  {
    hide Numbers;
    forall i | 0 <= i < |a| ensures a[i] == b[i] {
      VectorAt(numbering, relations, f, a, ints, i);
      VectorAt(numbering, relations, f, b, ints, i);
      assert SortsOf(a)[i] == SortsOf(b)[i];
    }
  }

  lemma VectorAt(numbering: Numbering, relations: seq<seq<Sort>>, f: nat, values: seq<Value>, ints: seq<int>, i: nat)
    requires Numbers(numbering, relations) && IsVector(ints, numbering, relations, f, values) && i < |values|
    ensures numbering.first[f] + i < |ints| && ints[numbering.first[f] + i] == ToInt(values[i])
  {
    ArgumentFirst(relations[f], i);
    hide AllTerms;
    var k := numbering.first[f] + i;
    assert AllTerms(relations[f])[k - numbering.first[f]] == Argument(i);
  }

  lemma ArgumentFirst(sorts: seq<Sort>, i: nat)
    requires i < |sorts|
    ensures AllTerms(sorts)[i] == Argument(i)
  {
  }
}
