/**
 The shape of trees under construction: every address occurs in one place, there is one categorical
 node, at the root, and every cut separates two data points that are routed to it.
 */
module TreeShape {
  import opened Tree
  import opened Slices
  import opened Jobs

  ghost function Addresses(node: Node): set<nat> {
    match node
    case Hole(a) => {a}
    case Leaf(_) => {}
    case IntNode(_, _, l, r) => Addresses(l) + Addresses(r)
    case CategoricalNode(_, children) => set i, x | 0 <= i < |children| && x in Addresses(children[i]) :: x
  }

  /** No address occurs in two places. */
  ghost predicate Separated(node: Node) {
    match node
    case Hole(_) => true
    case Leaf(_) => true
    case IntNode(_, _, l, r) => Addresses(l) !! Addresses(r) && Separated(l) && Separated(r)
    case CategoricalNode(_, children) =>
      && (forall i :: 0 <= i < |children| ==> Separated(children[i]))
      && (forall i, j :: 0 <= i < j < |children| ==> Addresses(children[i]) !! Addresses(children[j]))
  }

  /** Only integer nodes, leaves and holes. */
  predicate IntShape(node: Node) {
    match node
    case Hole(_) => true
    case Leaf(_) => true
    case IntNode(_, _, l, r) => IntShape(l) && IntShape(r)
    case CategoricalNode(_, _) => false
  }

  ghost function Below(data: seq<Datum>, D: set<nat>, a: nat, cut: int): set<nat> {
    set p | p in D && IntOf(data, a, p) <= cut
  }

  ghost function Above(data: seq<Datum>, D: set<nat>, a: nat, cut: int): set<nat> {
    set p | p in D && IntOf(data, a, p) > cut
  }

  ghost function InCategory(data: seq<Datum>, D: set<nat>, a: nat, c: nat): set<nat> {
    set p | p in D && CategoryOf(data, a, p) == c
  }

  /** Every cut is at the value of a point and has points on both sides, counting only those of `D` routed to it. */
  ghost predicate Justified(node: Node, data: seq<Datum>, D: set<nat>) {
    match node
    case Hole(_) => true
    case Leaf(_) => true
    case IntNode(a, cut, l, r) =>
      && Below(data, D, a, cut) != {} && Above(data, D, a, cut) != {}
      && (exists p :: p in D && IntOf(data, a, p) == cut)
      && Justified(l, data, Below(data, D, a, cut)) && Justified(r, data, Above(data, D, a, cut))
    case CategoricalNode(a, children) =>
      forall i :: 0 <= i < |children| ==> Justified(children[i], data, InCategory(data, D, a, i))
  }

  // ---------- filling a hole ----------

  lemma {:induction false} FillAbsent(node: Node, address: nat, sub: Node)
    requires address !in Addresses(node)
    ensures Fill(node, address, sub) == node
  {
    match node
    case Hole(_) =>
    case Leaf(_) =>
    case IntNode(_, _, l, r) => FillAbsent(l, address, sub); FillAbsent(r, address, sub);
    case CategoricalNode(a, children) =>
      forall i | 0 <= i < |children| ensures Fill(children[i], address, sub) == children[i] {
        FillAbsent(children[i], address, sub);
      }
      assert Fill(node, address, sub).children == children;
  }

  lemma {:induction false} FillAddresses(node: Node, address: nat, sub: Node)
    ensures Addresses(Fill(node, address, sub)) <= (Addresses(node) - {address}) + Addresses(sub)
  {
    match node
    case Hole(_) =>
    case Leaf(_) =>
    case IntNode(_, _, l, r) => FillAddresses(l, address, sub); FillAddresses(r, address, sub);
    case CategoricalNode(a, children) =>
      var filled := Fill(node, address, sub);
      forall x | x in Addresses(filled) ensures x in (Addresses(node) - {address}) + Addresses(sub) {
        var i :| 0 <= i < |children| && x in Addresses(filled.children[i]);
        FillAddresses(children[i], address, sub);
      }
  }

  lemma {:induction false} FillSeparated(node: Node, address: nat, sub: Node)
    requires Separated(node) && Separated(sub) && Addresses(node) !! Addresses(sub)
    ensures Separated(Fill(node, address, sub))
  {
    match node
    case Hole(_) =>
    case Leaf(_) =>
    case IntNode(_, _, l, r) =>
      FillSeparated(l, address, sub);
      FillSeparated(r, address, sub);
      if address !in Addresses(l) { FillAbsent(l, address, sub); }
      if address !in Addresses(r) { FillAbsent(r, address, sub); }
      FillAddresses(l, address, sub);
      FillAddresses(r, address, sub);
    case CategoricalNode(a, children) =>
      var filled := Fill(node, address, sub);
      forall i | 0 <= i < |children|
        ensures Separated(filled.children[i])
        ensures Addresses(filled.children[i]) <= Addresses(children[i]) + Addresses(sub)
        ensures address !in Addresses(children[i]) ==> filled.children[i] == children[i]
      {
        FillChild(node, address, sub, i);
        FillSeparated(children[i], address, sub);
        FillAddresses(children[i], address, sub);
        if address !in Addresses(children[i]) { FillAbsent(children[i], address, sub); }
      }
  }

  lemma FillChild(node: Node, address: nat, sub: Node, i: nat)
    requires node.CategoricalNode? && i < |node.children|
    ensures Fill(node, address, sub).children[i] == Fill(node.children[i], address, sub)
    ensures Addresses(node.children[i]) <= Addresses(node)
  {
  }

  /** A point is routed to an address that occurs. */
  lemma {:induction false} ReachAddress(node: Node, d: Datum, meta: Metadata)
    requires ValidNode(node, meta) && ValidDatum(d, meta) && Reach(node, d, meta).Hole?
    ensures Reach(node, d, meta).address in Addresses(node)
  {
    match node
    case Hole(_) =>
    case Leaf(_) =>
    case IntNode(a, cut, l, r) => if d.ints[a] <= cut { ReachAddress(l, d, meta); } else { ReachAddress(r, d, meta); }
    case CategoricalNode(a, children) =>
      ReachAddress(children[d.categories[a]], d, meta);
  }

  ghost function Reaching(node: Node, t: Task, D: set<nat>, address: nat): set<nat>
    requires ValidTask(t) && ValidNode(node, t.meta)
  {
    set p | p in D && p < |t.data| && Reach(node, t.data[p], t.meta) == Hole(address)
  }

  /** Creating a node whose cuts are justified by the points that reach its address. */
  lemma {:induction false} FillJustified(node: Node, t: Task, D: set<nat>, address: nat, sub: Node)
    requires ValidTask(t) && ValidNode(node, t.meta) && Separated(node) && Justified(node, t.data, D)
    requires forall p :: p in D ==> p < |t.data|
    requires Justified(sub, t.data, Reaching(node, t, D, address))
    ensures Justified(Fill(node, address, sub), t.data, D)
  {
    match node
    case Hole(a) =>
      if a == address { assert Reaching(node, t, D, address) == D; }
    case Leaf(_) =>
    case IntNode(a, cut, l, r) =>
      var below, above := Below(t.data, D, a, cut), Above(t.data, D, a, cut);
      SidesReaching(node, t, D, address);
      if address in Addresses(l) {
        FillAbsent(r, address, sub);
        AbsentUnreached(r, t, above, address);
        FillJustified(l, t, below, address, sub);
      } else {
        FillAbsent(l, address, sub);
        AbsentUnreached(l, t, below, address);
        FillJustified(r, t, above, address, sub);
      }
    case CategoricalNode(a, children) =>
      forall i | 0 <= i < |children|
        ensures Justified(Fill(children[i], address, sub), t.data, InCategory(t.data, D, a, i))
      {
        if address in Addresses(children[i]) {
          ChildReaching(node, t, D, address, i);
          FillJustified(children[i], t, InCategory(t.data, D, a, i), address, sub);
        } else {
          FillAbsent(children[i], address, sub);
        }
      }
  }

  lemma AbsentUnreached(node: Node, t: Task, D: set<nat>, address: nat)
    requires ValidTask(t) && ValidNode(node, t.meta) && address !in Addresses(node)
    ensures Reaching(node, t, D, address) == {}
  {
    forall p | p in D && p < |t.data| ensures Reach(node, t.data[p], t.meta) != Hole(address) {
      if Reach(node, t.data[p], t.meta).Hole? { ReachAddress(node, t.data[p], t.meta); }
    }
  }

  lemma SidesReaching(node: Node, t: Task, D: set<nat>, address: nat)
    requires ValidTask(t) && ValidNode(node, t.meta) && node.IntNode?
    requires forall p :: p in D ==> p < |t.data|
    ensures var below, above :=
              Below(t.data, D, node.attribute, node.threshold), Above(t.data, D, node.attribute, node.threshold);
            var left, right := Reaching(node.left, t, below, address), Reaching(node.right, t, above, address);
            Reaching(node, t, D, address) == left + right && (right == {} ==> Reaching(node, t, D, address) == left) &&
            (left == {} ==> Reaching(node, t, D, address) == right)
  {
    var below, above :=
        Below(t.data, D, node.attribute, node.threshold), Above(t.data, D, node.attribute, node.threshold);
    var left, right := Reaching(node.left, t, below, address), Reaching(node.right, t, above, address);
    forall p | p in D ensures p in Reaching(node, t, D, address) <==> p in left || p in right {
      assert ValidDatum(t.data[p], t.meta);
    }
    assert Reaching(node, t, D, address) == left + right;
  }

  lemma ChildReaching(node: Node, t: Task, D: set<nat>, address: nat, i: nat)
    requires ValidTask(t) && ValidNode(node, t.meta) && node.CategoricalNode? && Separated(node)
    requires i < |node.children| && address in Addresses(node.children[i])
    requires forall p :: p in D ==> p < |t.data|
    ensures Reaching(node, t, D, address) ==
              Reaching(node.children[i], t, InCategory(t.data, D, node.attribute, i), address)
  {
    forall p | p in D && Reach(node, t.data[p], t.meta) == Hole(address)
      ensures CategoryOf(t.data, node.attribute, p) == i
    {
      assert ValidDatum(t.data[p], t.meta);
      var c := t.data[p].categories[node.attribute];
      ReachAddress(node.children[c], t.data[p], t.meta);
    }
    assert forall p :: p in D ==> ValidDatum(t.data[p], t.meta);
  }

  // ---------- trees made of integer nodes below one categorical root ----------

  ghost predicate RootShape(root: Node) {
    root.CategoricalNode? && root.attribute == 0 && forall i :: 0 <= i < |root.children| ==> IntShape(root.children[i])
  }

  lemma {:induction false} FillIntShape(node: Node, address: nat, sub: Node)
    requires IntShape(node) && IntShape(sub)
    ensures IntShape(Fill(node, address, sub))
  {
    match node
    case Hole(_) =>
    case Leaf(_) =>
    case IntNode(_, _, l, r) => FillIntShape(l, address, sub); FillIntShape(r, address, sub);
    case CategoricalNode(_, _) =>
  }

  ghost function AllPoints(t: Task): set<nat> {
    set p {:trigger t.data[p]} | 0 <= p < |t.data|
  }

  /** The invariant about the shape of the tree; `first` says that the first split is still to come. */
  ghost predicate ShapeInv(t: Task, root: Node, next: nat, first: bool) {
    && Separated(root) && (forall x :: x in Addresses(root) ==> x < next)
    && Justified(root, t.data, AllPoints(t))
    && (if first then root.Hole? else RootShape(root) && |t.meta.numberOfCategories| == 1)
  }

  /** Creating a leaf or an integer node keeps the shape. */
  lemma FillShape(t: Task, root: Node, next: nat, address: nat, sub: Node, next': nat)
    requires ValidTask(t) && ValidNode(root, t.meta) && ShapeInv(t, root, next, false) && next <= next'
    requires IntShape(sub) && Separated(sub) && forall x :: x in Addresses(sub) ==> next <= x < next'
    requires Justified(sub, t.data, Reaching(root, t, AllPoints(t), address))
    ensures ShapeInv(t, Fill(root, address, sub), next', false)
  {
    FillSeparated(root, address, sub);
    FillAddresses(root, address, sub);
    FillJustified(root, t, AllPoints(t), address, sub);
    forall i | 0 <= i < |root.children| ensures IntShape(Fill(root.children[i], address, sub)) {
      FillIntShape(root.children[i], address, sub);
    }
  }

  /** The first split creates the categorical root. */
  lemma FirstShape(t: Task, root: Node, next: nat, categories: nat)
    requires ShapeInv(t, root, next, true) && |t.meta.numberOfCategories| == 1
    ensures ShapeInv(t, CategoricalHoles(0, next, categories), next + categories, false)
  {
    var sub := CategoricalHoles(0, next, categories);
    forall i | 0 <= i < categories ensures Addresses(sub.children[i]) == {next + i} && IntShape(sub.children[i]) {}
  }

  /** Below the root, all points that reach one address have one category, so there is no further categorical split. */
  lemma ReachingOneCategory(t: Task, root: Node, address: nat, p: nat, q: nat)
    requires ValidTask(t) && ValidNode(root, t.meta) && Separated(root) && RootShape(root)
    requires p < |t.data| && q < |t.data|
    requires Reach(root, t.data[p], t.meta) == Hole(address) && Reach(root, t.data[q], t.meta) == Hole(address)
    ensures CategoryOf(t.data, 0, p) == CategoryOf(t.data, 0, q)
  {
    assert ValidDatum(t.data[p], t.meta) && ValidDatum(t.data[q], t.meta);
    ReachAddress(root.children[t.data[p].categories[0]], t.data[p], t.meta);
    ReachAddress(root.children[t.data[q].categories[0]], t.data[q], t.meta);
  }

  // ---------- finished trees ----------

  /** A justified cut is over an attribute that is not constant on the points routed to it. */
  lemma {:induction false} JustifiedWithin(node: Node, data: seq<Datum>, D: set<nat>, block: Interval)
    requires IntShape(node) && Justified(node, data, D)
    requires forall p, a: nat :: p in D && !(block.first <= a <= block.last) ==> IntOf(data, a, p) == 0
    ensures TestsWithin(node, block)
  {
    if node.IntNode? {
      var below, above :=
          Below(data, D, node.attribute, node.threshold), Above(data, D, node.attribute, node.threshold);
      var p :| p in below;
      var q :| q in above;
      assert IntOf(data, node.attribute, p) != IntOf(data, node.attribute, q);
      JustifiedWithin(node.left, data, below, block);
      JustifiedWithin(node.right, data, above, block);
    }
  }

  /** Where all points reach leaves, a justified tree has no holes, unless no point comes near it. */
  lemma {:induction false} JustifiedComplete(node: Node, t: Task, D: set<nat>)
    requires ValidTask(t) && ValidNode(node, t.meta) && IntShape(node) && Justified(node, t.data, D)
    requires forall p :: p in D ==> p < |t.data| && Reach(node, t.data[p], t.meta).Leaf?
    ensures IntTree(node) || (node.Hole? && D == {})
  {
    if node.IntNode? {
      assert forall p :: p in D ==> ValidDatum(t.data[p], t.meta);
      JustifiedComplete(node.left, t, Below(t.data, D, node.attribute, node.threshold));
      JustifiedComplete(node.right, t, Above(t.data, D, node.attribute, node.threshold));
    }
  }

  /** Cuts are at data values, so no attribute is cut above its largest value. */
  lemma {:induction false} JustifiedCuts(node: Node, data: seq<Datum>, D: set<nat>, a: nat, limit: int)
    requires Justified(node, data, D) && forall p :: p in D ==> IntOf(data, a, p) <= limit
    ensures CutsAtMost(node, a, limit)
  {
    match node
    case Hole(_) =>
    case Leaf(_) =>
    case IntNode(b, cut, l, r) =>
      JustifiedCuts(l, data, Below(data, D, b, cut), a, limit);
      JustifiedCuts(r, data, Above(data, D, b, cut), a, limit);
    case CategoricalNode(b, children) =>
      forall i | 0 <= i < |children| ensures CutsAtMost(children[i], a, limit) {
        JustifiedCuts(children[i], data, InCategory(data, D, b, i), a, limit);
      }
  }

  /** What is left when the tree is finished. */
  ghost predicate FinishedShape(tree: Node, t: Task) {
    && tree.CategoricalNode? && tree.attribute == 0 && Justified(tree, t.data, AllPoints(t))
    && forall f :: 0 <= f < |tree.children| ==>
      IntShape(tree.children[f]) && (tree.children[f].Hole? || IntTree(tree.children[f]))
  }

  lemma ShapeFinished(tree: Node, t: Task, next: nat)
    requires ValidTask(t) && ValidNode(tree, t.meta) && ShapeInv(t, tree, next, false) && Total(tree, t.data, t.meta)
    ensures FinishedShape(tree, t)
  {
    forall f | 0 <= f < |tree.children| ensures tree.children[f].Hole? || IntTree(tree.children[f]) {
      var D := InCategory(t.data, AllPoints(t), 0, f);
      forall p | p in D ensures Reach(tree.children[f], t.data[p], t.meta).Leaf? {
        assert ValidDatum(t.data[p], t.meta);
        assert Output(tree, t.data[p], t.meta).Some?;
      }
      JustifiedComplete(tree.children[f], t, D);
    }
  }

  /** On block data, a finished tree tests attributes of the right blocks only. */
  lemma FinishedInBlocks(tree: Node, t: Task, blocks: seq<Interval>)
    requires ValidTask(t) && ValidNode(tree, t.meta) && FinishedShape(tree, t)
    requires |tree.children| == |blocks| && BlockData(t.data, blocks)
    ensures InBlocks(tree, blocks)
  {
    forall f | 0 <= f < |blocks| ensures TestsWithin(tree.children[f], blocks[f]) {
      var D := InCategory(t.data, AllPoints(t), 0, f);
      forall p, a: nat | p in D && !(blocks[f].first <= a <= blocks[f].last) ensures IntOf(t.data, a, p) == 0 {
        assert ValidDatum(t.data[p], t.meta);
      }
      JustifiedWithin(tree.children[f], t.data, D, blocks[f]);
    }
  }
}
