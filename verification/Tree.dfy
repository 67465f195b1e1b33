/**
 Data points and decision trees.  A child pointer that has not been set is a hole; holes carry the
 address at which the node is to be created, which is what a slice remembers.
 */
module Tree {
  import opened Horn

  datatype Datum = Datum(categories: seq<nat>, ints: seq<int>)

  /** The number of categories of each categorical attribute, and the number of integer attributes. */
  datatype Metadata = Metadata(numberOfCategories: seq<nat>, intAttributes: nat)

  datatype Node =
    | Hole(address: nat)
    | Leaf(output: bool)
    | IntNode(attribute: nat, threshold: int, left: Node, right: Node)
    | CategoricalNode(attribute: nat, children: seq<Node>)

  ghost predicate ValidDatum(d: Datum, meta: Metadata) {
    && |d.categories| == |meta.numberOfCategories|
    && |d.ints| == meta.intAttributes
    && forall a :: 0 <= a < |d.categories| ==> d.categories[a] < meta.numberOfCategories[a]
  }

  ghost predicate ValidNode(node: Node, meta: Metadata) {
    match node
    case Hole(_) => true
    case Leaf(_) => true
    case IntNode(a, _, l, r) => a < meta.intAttributes && ValidNode(l, meta) && ValidNode(r, meta)
    case CategoricalNode(a, children) =>
      && a < |meta.numberOfCategories| && |children| == meta.numberOfCategories[a]
      && forall i :: 0 <= i < |children| ==> ValidNode(children[i], meta)
  }

  /** The leaf, or the hole, that a data point is routed to. */
  function Reach(node: Node, d: Datum, ghost meta: Metadata): (r: Node)
    requires ValidNode(node, meta) && ValidDatum(d, meta)
    ensures r.Hole? || r.Leaf?
  {
    match node
    case Hole(_) => node
    case Leaf(_) => node
    case IntNode(a, t, l, r) => if d.ints[a] <= t then Reach(l, d, meta) else Reach(r, d, meta)
    case CategoricalNode(a, children) => Reach(children[d.categories[a]], d, meta)
  }

  /** The output of the tree on a data point; none if the point is routed to a child that does not exist. */
  function Output(node: Node, d: Datum, ghost meta: Metadata): Option<bool>
    requires ValidNode(node, meta) && ValidDatum(d, meta)
  {
    var r := Reach(node, d, meta);
    if r.Leaf? then Some(r.output) else None
  }

  /** Creates `sub` at an address. */
  function Fill(node: Node, address: nat, sub: Node): Node {
    match node
    case Hole(a) => if a == address then sub else node
    case Leaf(_) => node
    case IntNode(a, t, l, r) => IntNode(a, t, Fill(l, address, sub), Fill(r, address, sub))
    case CategoricalNode(a, children) =>
      CategoricalNode(a, seq(|children|, i requires 0 <= i < |children| => Fill(children[i], address, sub)))
  }

  lemma {:induction false} FillValid(node: Node, address: nat, sub: Node, meta: Metadata)
    requires ValidNode(node, meta) && ValidNode(sub, meta)
    ensures ValidNode(Fill(node, address, sub), meta)
  {
    match node
    case Hole(_) =>
    case Leaf(_) =>
    case IntNode(_, _, l, r) => FillValid(l, address, sub, meta); FillValid(r, address, sub, meta);
    case CategoricalNode(_, children) =>
      forall i | 0 <= i < |children| ensures ValidNode(Fill(children[i], address, sub), meta) {
        FillValid(children[i], address, sub, meta);
      }
  }

  /** Creating a node reroutes exactly the points that reached its address. */
  lemma {:induction false} FillReach(node: Node, address: nat, sub: Node, d: Datum, meta: Metadata)
    requires ValidNode(node, meta) && ValidNode(sub, meta) && ValidDatum(d, meta)
    ensures ValidNode(Fill(node, address, sub), meta)
    ensures Reach(Fill(node, address, sub), d, meta) ==
              if Reach(node, d, meta) == Hole(address) then Reach(sub, d, meta) else Reach(node, d, meta)
  {
    FillValid(node, address, sub, meta);
    match node
    case Hole(_) =>
    case Leaf(_) =>
    case IntNode(_, _, l, r) =>
      FillReach(l, address, sub, d, meta);
      FillReach(r, address, sub, d, meta);
    case CategoricalNode(a, children) =>
      FillReach(children[d.categories[a]], address, sub, d, meta);
  }

  // ---------- cuts ----------

  /** All integer cuts of the tree lie between `-bound` and `bound`. */
  ghost predicate CutsWithin(node: Node, bound: nat) {
    match node
    case Hole(_) => true
    case Leaf(_) => true
    case IntNode(_, t, l, r) => -(bound as int) <= t <= bound && CutsWithin(l, bound) && CutsWithin(r, bound)
    case CategoricalNode(_, children) => forall i :: 0 <= i < |children| ==> CutsWithin(children[i], bound)
  }

  lemma {:induction false} FillCuts(node: Node, address: nat, sub: Node, bound: nat)
    requires CutsWithin(node, bound) && CutsWithin(sub, bound)
    ensures CutsWithin(Fill(node, address, sub), bound)
  {
    match node
    case Hole(_) =>
    case Leaf(_) =>
    case IntNode(_, _, l, r) => FillCuts(l, address, sub, bound); FillCuts(r, address, sub, bound);
    case CategoricalNode(_, children) =>
      forall i | 0 <= i < |children| ensures CutsWithin(Fill(children[i], address, sub), bound) {
        FillCuts(children[i], address, sub, bound);
      }
  }

  /** The attribute is cut at the limit or below. */
  ghost predicate CutsAtMost(node: Node, a: nat, limit: int) {
    match node
    case Hole(_) => true
    case Leaf(_) => true
    case IntNode(b, t, l, r) => (b == a ==> t <= limit) && CutsAtMost(l, a, limit) && CutsAtMost(r, a, limit)
    case CategoricalNode(_, children) => forall i :: 0 <= i < |children| ==> CutsAtMost(children[i], a, limit)
  }

  lemma {:induction false} CutsAtMostMore(node: Node, a: nat, limit: int, more: int)
    requires CutsAtMost(node, a, limit) && limit <= more
    ensures CutsAtMost(node, a, more)
  {
    match node
    case Hole(_) =>
    case Leaf(_) =>
    case IntNode(_, _, l, r) => CutsAtMostMore(l, a, limit, more); CutsAtMostMore(r, a, limit, more);
    case CategoricalNode(_, children) =>
      forall i | 0 <= i < |children| ensures CutsAtMost(children[i], a, more) {
        CutsAtMostMore(children[i], a, limit, more);
      }
  }

  // ---------- consistency with a sample ----------

  ghost predicate ValidData(data: seq<Datum>, meta: Metadata) {
    forall p :: 0 <= p < |data| ==> ValidDatum(data[p], meta)
  }

  /** The data points the tree makes true. */
  ghost function TruePoints(tree: Node, data: seq<Datum>, meta: Metadata): set<nat>
    requires ValidNode(tree, meta) && ValidData(data, meta)
  {
    set p | 0 <= p < |data| && Output(tree, data[p], meta) == Some(true)
  }

  /** No data point is routed to a child that does not exist. */
  ghost predicate Total(tree: Node, data: seq<Datum>, meta: Metadata)
    requires ValidNode(tree, meta) && ValidData(data, meta)
  {
    forall p :: 0 <= p < |data| ==> Output(tree, data[p], meta).Some?
  }

  /** The tree is defined on all data points, outputs every label and satisfies every constraint. */
  ghost predicate Consistent(tree: Node, data: seq<Datum>, meta: Metadata, labels: seq<Label>, hs: seq<Constraint>)
    requires ValidNode(tree, meta) && ValidData(data, meta)
  {
    Total(tree, data, meta) && Model(TruePoints(tree, data, meta), labels, hs)
  }

  // ---------- finished trees ----------

  /** Integer nodes and leaves only. */
  predicate IntTree(node: Node) {
    match node
    case Leaf(_) => true
    case IntNode(_, _, l, r) => IntTree(l) && IntTree(r)
    case _ => false
  }

  /** The attributes of one category: its block of the attribute vector. */
  datatype Interval = Interval(first: nat, last: nat)

  /** The tree tests attributes of the block only. */
  ghost predicate TestsWithin(node: Node, block: Interval) {
    match node
    case IntNode(a, _, l, r) => block.first <= a <= block.last && TestsWithin(l, block) && TestsWithin(r, block)
    case _ => true
  }

  /** Points have zeros outside the block of their category. */
  ghost predicate BlockData(data: seq<Datum>, blocks: seq<Interval>) {
    forall p, a: nat ::
      0 <= p < |data| && |data[p].categories| > 0 && data[p].categories[0] < |blocks| && a < |data[p].ints| &&
      !(blocks[data[p].categories[0]].first <= a <= blocks[data[p].categories[0]].last) ==>
        data[p].ints[a] == 0
  }

  /** A leaf, or one tree of integer nodes per category, over the attributes of that category. */
  ghost predicate InBlocks(root: Node, blocks: seq<Interval>) {
    root.Leaf? ||
    (root.CategoricalNode? && root.attribute == 0 && |root.children| == |blocks| &&
     forall f :: 0 <= f < |blocks| ==>
         root.children[f].Hole? || (IntTree(root.children[f]) && TestsWithin(root.children[f], blocks[f])))
  }
}
