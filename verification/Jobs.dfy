/**
 The jobs of the learner: splitting a slice on a categorical or an integer attribute, and turning it
 into a leaf.
 */
module Jobs {
  import opened Horn
  import opened HornSolver
  import opened Tree
  import opened Slices
  import opened Sorting

  datatype Job =
    | CategoricalSplit(attribute: nat)
    | IntSplit(attribute: nat, threshold: int)
    | LeafCreation(value: bool, pos: set<nat>, neg: set<nat>)

  /** The tree under construction, and the first address not handed out yet. */
  class DecisionTree {
    var root: Node
    var next: nat

    constructor ()
      ensures root == Hole(0) && next == 1
    {
      root, next := Hole(0), 1;
    }

    /** Writes a node through the address a slice holds. */
    method CreateNode(address: nat, node: Node, children: nat)
      modifies this
      ensures root == Fill(old(root), address, node) && next == old(next) + children
    {
      root := Fill(root, address, node);
      next := next + children;
    }
  }

  function CategoryOf(data: seq<Datum>, a: nat, p: nat): nat {
    if p < |data| && a < |data[p].categories| then data[p].categories[a] else 0
  }

  function IntOf(data: seq<Datum>, a: nat, p: nat): int {
    if p < |data| && a < |data[p].ints| then data[p].ints[a] else 0
  }

  function IntKey(data: seq<Datum>, a: nat): nat -> int {
    (p: nat) => IntOf(data, a, p)
  }

  function CategoryKey(data: seq<Datum>, a: nat): nat -> int {
    (p: nat) => CategoryOf(data, a, p)
  }

  // ---------- slices that tile an interval ----------

  ghost predicate Tiles(parts: seq<Slice>, left: nat, right: nat) {
    && parts != [] && parts[0].left == left && parts[|parts| - 1].right == right
    && (forall j :: 0 <= j < |parts| ==> parts[j].left <= parts[j].right)
    && (forall j :: 0 < j < |parts| ==> parts[j].left == parts[j - 1].right + 1)
  }

  /** Twice the size less one, summed over the slices: what every job decreases. */
  function Weight(slices: seq<Slice>): int {
    if slices == [] then 0
    else Weight(slices[..|slices| - 1]) + 2 * (slices[|slices| - 1].right - slices[|slices| - 1].left) + 1
  }

  lemma {:induction false} WeightAppend(a: seq<Slice>, b: seq<Slice>)
    ensures Weight(a + b) == Weight(a) + Weight(b)
  {
    if b == [] {
      assert a + b == a;
    } else {
      WeightAppend(a, b[..|b| - 1]);
      assert (a + b)[..|a + b| - 1] == a + b[..|b| - 1];
    }
  }

  lemma {:induction false} TilesWeight(parts: seq<Slice>, left: nat, right: nat)
    requires Tiles(parts, left, right)
    ensures Weight(parts) == 2 * (right - left + 1) - |parts|
  {
    var front := parts[..|parts| - 1];
    if front != [] {
      TilesWeight(front, left, front[|front| - 1].right);
    }
  }

  ghost predicate Covered(parts: seq<Slice>, i: int) {
    exists part :: part in parts && part.left <= i <= part.right
  }

  lemma {:induction false} TilesApart(parts: seq<Slice>, left: nat, right: nat, j: nat, k: nat)
    requires Tiles(parts, left, right) && j < k < |parts|
    ensures parts[j].right < parts[k].left
  {
    if j < k - 1 {
      TilesApart(parts, left, right, j, k - 1);
    }
  }

  lemma TilesOrdered(parts: seq<Slice>, left: nat, right: nat)
    requires Tiles(parts, left, right)
    ensures forall part :: part in parts ==> left <= part.left <= part.right <= right
    ensures forall j, k :: 0 <= j < k < |parts| ==> parts[j].right < parts[k].left
  {
    forall j, k | 0 <= j < k < |parts| ensures parts[j].right < parts[k].left {
      TilesApart(parts, left, right, j, k);
    }
  }

  lemma {:induction false} TilesCover(parts: seq<Slice>, left: nat, right: nat, i: nat)
    requires Tiles(parts, left, right) && left <= i <= right
    ensures Covered(parts, i)
  {
    var last, front := parts[|parts| - 1], parts[..|parts| - 1];
    assert last in parts;
    if i < last.left {
      TilesCover(front, left, front[|front| - 1].right, i);
      var part :| part in front && part.left <= i <= part.right;
      assert part in parts;
    }
  }

  // ---------- from sorted slices to splits ----------

  /** Every part has one key, and the key is what its address encodes. */
  ghost predicate Uniform(order: seq<nat>, part: Slice, key: nat -> int, base: nat) {
    forall i :: part.left <= i <= part.right && i < |order| ==> key(order[i]) == part.address - base
  }

  /** Tiles with one key each, and different keys, hold exactly the points with their key. */
  lemma TilesContain(order: seq<nat>, sl: Slice, parts: seq<Slice>, key: nat -> int, base: nat, part: Slice, p: nat)
    requires InBounds(sl, |order|) && Tiles(parts, sl.left, sl.right) && part in parts
    requires forall part :: part in parts ==> Uniform(order, part, key, base)
    requires forall a, b :: a in parts && b in parts && a.address == b.address ==> a == b
    ensures Contains(order, part, p) <==> Contains(order, sl, p) && key(p) == part.address - base
  {
    TilesOrdered(parts, sl.left, sl.right);
    if Contains(order, sl, p) && key(p) == part.address - base {
      var i :| sl.left <= i <= sl.right && i < |order| && order[i] == p;
      TilesCover(parts, sl.left, sl.right, i);
      var other :| other in parts && other.left <= i <= other.right;
      assert Uniform(order, other, key, base);
    }
    if Contains(order, part, p) {
      assert Uniform(order, part, key, base);
    }
  }

  lemma TilesPlaced(n: nat, sl: Slice, parts: seq<Slice>)
    requires InBounds(sl, n) && Tiles(parts, sl.left, sl.right)
    requires forall j, k :: 0 <= j < k < |parts| ==> parts[j].address != parts[k].address
    ensures WellPlaced(parts, n)
  {
    TilesOrdered(parts, sl.left, sl.right);
    assert forall k :: 0 <= k < |parts| ==> parts[k] in parts;
  }

  /**
   The common core of both split jobs: `key` numbers the child a point is routed to, and the parts are
   tiles with one key each.
   */
  lemma PartsSplit(t: Task, order: seq<nat>, sl: Slice, parts: seq<Slice>, key: nat -> int, base: nat, node: Node)
    requires ValidTask(t) && ValidNode(node, t.meta) && InBounds(sl, |order|) && Tiles(parts, sl.left, sl.right)
    requires forall part :: part in parts ==> Uniform(order, part, key, base) && base <= part.address
    requires forall j, k :: 0 <= j < k < |parts| ==> parts[j].address != parts[k].address
    requires forall p :: 0 <= p < |t.data| ==> key(p) >= 0 && Reach(node, t.data[p], t.meta) == Hole(base + key(p))
    ensures Splits(t, order, sl, node, base, parts)
  {
    TilesPlaced(|order|, sl, parts);
    TilesOrdered(parts, sl.left, sl.right);
    forall part, p | part in parts && 0 <= p < |t.data|
      ensures Contains(order, part, p) <==>
                Contains(order, sl, p) && Reach(node, t.data[p], t.meta) == Hole(part.address)
    {
      TilesContain(order, sl, parts, key, base, part, p);
    }
    forall p | 0 <= p < |t.data| && Contains(order, sl, p)
      ensures exists part :: part in parts && part.address == base + key(p)
    {
      KeyHasPart(order, sl, parts, key, base, p);
    }
  }

  lemma KeyHasPart(order: seq<nat>, sl: Slice, parts: seq<Slice>, key: nat -> int, base: nat, p: nat)
    requires InBounds(sl, |order|) && Tiles(parts, sl.left, sl.right) && Contains(order, sl, p)
    requires forall part :: part in parts ==> Uniform(order, part, key, base)
    ensures exists part :: part in parts && part.address == base + key(p)
  {
    var i :| sl.left <= i <= sl.right && i < |order| && order[i] == p;
    TilesCover(parts, sl.left, sl.right, i);
    var part :| part in parts && part.left <= i <= part.right;
    assert Uniform(order, part, key, base);
  }

  // ---------- integer splits ----------

  /** The child of an integer node a point is routed to. */
  function SideOf(data: seq<Datum>, a: nat, threshold: int, p: nat): int {
    if IntOf(data, a, p) <= threshold then 0 else 1
  }

  function SideKey(data: seq<Datum>, a: nat, threshold: int): nat -> int {
    (p: nat) => SideOf(data, a, threshold, p)
  }

  /** The job is executable: the slice has points on both sides of the cut. */
  ghost predicate CutSeparates(t: Task, order: seq<nat>, sl: Slice, a: nat, threshold: int) {
    && a < t.meta.intAttributes
    && (exists p: nat :: Contains(order, sl, p) && IntOf(t.data, a, p) <= threshold)
    && (exists p: nat :: Contains(order, sl, p) && IntOf(t.data, a, p) > threshold)
  }

  /** Once the slice is sorted, its first point is below the cut and its last one above. */
  lemma SortedEnds(t: Task, order: seq<nat>, sl: Slice, a: nat, threshold: int)
    requires InBounds(sl, |order|) && CutSeparates(t, order, sl, a, threshold)
    requires SortedBy(order, sl.left, sl.right, IntKey(t.data, a))
    ensures sl.left < sl.right
    ensures IntOf(t.data, a, order[sl.left]) <= threshold < IntOf(t.data, a, order[sl.right])
  {
    var p: nat :| Contains(order, sl, p) && IntOf(t.data, a, p) <= threshold;
    var q: nat :| Contains(order, sl, q) && IntOf(t.data, a, q) > threshold;
    var i :| sl.left <= i <= sl.right && order[i] == p;
    var j :| sl.left <= j <= sl.right && order[j] == q;
    var key := IntKey(t.data, a);
    assert key(order[sl.left]) <= key(order[i]);
    assert key(order[j]) <= key(order[sl.right]);
  }

  /** Sorts the slice and finds the last position below the cut, searching from the right. */
  method FindCut(t: Task, order: array<nat>, sl: Slice, a: nat, threshold: int) returns (at: nat)
    requires InBounds(sl, order.Length) && CutSeparates(t, order[..], sl, a, threshold)
    modifies order
    ensures Permuted(old(order[..]), order[..], sl.left, sl.right)
    ensures SortedBy(order[..], sl.left, sl.right, IntKey(t.data, a))
    ensures sl.left <= at < sl.right && IntOf(t.data, a, order[at]) <= threshold
    ensures forall i :: at < i <= sl.right ==> IntOf(t.data, a, order[i]) > threshold
  {
    ghost var before := order[..];
    SortSlice(order, sl.left, sl.right, IntKey(t.data, a));
    SeparatesAfter(t, before, order[..], sl, a, threshold);
    SortedEnds(t, order[..], sl, a, threshold);
    at := sl.right;
    while IntOf(t.data, a, order[at]) > threshold
      invariant sl.left <= at <= sl.right
      invariant forall i :: at < i <= sl.right ==> IntOf(t.data, a, order[i]) > threshold
      decreases at
    {
      at := at - 1;
    }
  }

  /** Splits a slice at a cut. */
  method RunIntSplit(t: Task, order: array<nat>, tree: DecisionTree, sl: Slice, a: nat, threshold: int)
    returns (parts: seq<Slice>)
    requires ValidTask(t) && Indices(order[..], |t.data|) && InBounds(sl, order.Length)
    requires CutSeparates(t, order[..], sl, a, threshold)
    modifies order, tree
    ensures Permuted(old(order[..]), order[..], sl.left, sl.right)
    ensures var node := IntNode(a, threshold, Hole(old(tree.next)), Hole(old(tree.next) + 1));
            tree.root == Fill(old(tree.root), sl.address, node) && Splits(t, order[..], sl, node, old(tree.next), parts)
    ensures tree.next == old(tree.next) + 2 && forall part :: part in parts ==> part.address < tree.next
    ensures |parts| == 2 && Tiles(parts, sl.left, sl.right)
  {
    hide Fill, Splits, Permuted, SortedBy, IntKey, Contains, ValidTask;
    var at := FindCut(t, order, sl, a, threshold);
    var base := tree.next;
    var node := IntNode(a, threshold, Hole(base), Hole(base + 1));
    tree.CreateNode(sl.address, node, 2);
    parts := [Slice(sl.left, at, base), Slice(at + 1, sl.right, base + 1)];
    IntPartsSplit(t, order[..], sl, a, threshold, at, base);
  }

  lemma SeparatesAfter(t: Task, before: seq<nat>, after: seq<nat>, sl: Slice, a: nat, threshold: int)
    requires CutSeparates(t, before, sl, a, threshold) && Permuted(before, after, sl.left, sl.right)
    ensures CutSeparates(t, after, sl, a, threshold)
  {
    var whole := Slice(sl.left, sl.right, 0);
    assert forall p: nat :: Contains(before, sl, p) <==> Contains(before, whole, p);
    assert forall p: nat :: Contains(after, sl, p) <==> Contains(after, whole, p);
  }

  lemma IntPartsSplit(t: Task, order: seq<nat>, sl: Slice, a: nat, threshold: int, at: nat, base: nat)
    requires ValidTask(t) && InBounds(sl, |order|) && a < t.meta.intAttributes && sl.left <= at < sl.right
    requires SortedBy(order, sl.left, sl.right, IntKey(t.data, a))
    requires IntOf(t.data, a, order[at]) <= threshold
    requires forall i :: at < i <= sl.right ==> IntOf(t.data, a, order[i]) > threshold
    ensures Splits(t, order, sl, IntNode(a, threshold, Hole(base), Hole(base + 1)), base,
                   [Slice(sl.left, at, base), Slice(at + 1, sl.right, base + 1)])
  {
    var parts := [Slice(sl.left, at, base), Slice(at + 1, sl.right, base + 1)];
    var intKey, key := IntKey(t.data, a), SideKey(t.data, a, threshold);
    forall i | sl.left <= i <= at ensures key(order[i]) == 0 {
      assert intKey(order[i]) <= intKey(order[at]);
    }
    PartsSplit(t, order, sl, parts, key, base, IntNode(a, threshold, Hole(base), Hole(base + 1)));
  }

  // ---------- categorical splits ----------

  function CategoricalHoles(a: nat, base: nat, categories: nat): Node {
    CategoricalNode(a, seq(categories, i requires 0 <= i => Hole(base + i)))
  }

  /** The last position of the run of one category that starts at `left`. */
  method EndOfRun(t: Task, order: array<nat>, left: nat, last: nat, a: nat) returns (right: nat)
    requires left <= last < order.Length
    ensures left <= right <= last
    ensures forall i :: left <= i <= right ==> CategoryOf(t.data, a, order[i]) == CategoryOf(t.data, a, order[left])
    ensures right < last ==> CategoryOf(t.data, a, order[right + 1]) != CategoryOf(t.data, a, order[left])
  {
    right := left;
    while right + 1 <= last && CategoryOf(t.data, a, order[left]) == CategoryOf(t.data, a, order[right + 1])
      invariant left <= right <= last
      invariant forall i :: left <= i <= right ==> CategoryOf(t.data, a, order[i]) == CategoryOf(t.data, a, order[left])
    {
      right := right + 1;
    }
  }

  /** Slices of one category each, with increasing categories. */
  ghost predicate Grouped(order: seq<nat>, parts: seq<Slice>, key: nat -> int, base: nat) {
    && (forall k :: 0 <= k < |parts| ==> Uniform(order, parts[k], key, base) && base <= parts[k].address)
    && (forall j, k :: 0 <= j < k < |parts| ==> parts[j].address < parts[k].address)
  }

  ghost predicate TilesUpTo(parts: seq<Slice>, left: nat, end: nat) {
    if parts == [] then end == left else left < end && Tiles(parts, left, end - 1)
  }

  lemma GroupedAppend(order: seq<nat>, parts: seq<Slice>, key: nat -> int, base: nat, part: Slice, left: nat)
    requires Grouped(order, parts, key, base) && Uniform(order, part, key, base) && base <= part.address
    requires parts != [] ==> parts[|parts| - 1].address < part.address
    requires TilesUpTo(parts, left, part.left) && part.left <= part.right
    ensures Grouped(order, parts + [part], key, base) && TilesUpTo(parts + [part], left, part.right + 1)
  {
    assert forall k :: 0 <= k < |parts| ==> parts[k].address <= parts[|parts| - 1].address;
  }

  /** Cuts the sorted slice into its maximal runs of one category. */
  method GroupByCategory(t: Task, order: array<nat>, sl: Slice, a: nat, base: nat) returns (parts: seq<Slice>)
    requires InBounds(sl, order.Length) && SortedBy(order[..], sl.left, sl.right, CategoryKey(t.data, a))
    ensures Tiles(parts, sl.left, sl.right) && Grouped(order[..], parts, CategoryKey(t.data, a), base)
  {
    ghost var key := CategoryKey(t.data, a);
    parts := [];
    var left := sl.left;
    while left <= sl.right
      invariant sl.left <= left <= sl.right + 1
      invariant TilesUpTo(parts, sl.left, left) && Grouped(order[..], parts, key, base)
      invariant parts != [] && left <= sl.right ==>
                  parts[|parts| - 1].address < base + CategoryOf(t.data, a, order[left])
    {
      var category := CategoryOf(t.data, a, order[left]);
      var right := EndOfRun(t, order, left, sl.right, a);
      assert right < sl.right ==> key(order[..][left]) <= key(order[..][right + 1]);
      GroupedAppend(order[..], parts, key, base, Slice(left, right, base + category), sl.left);
      parts := parts + [Slice(left, right, base + category)];
      left := right + 1;
    }
  }

  lemma CategoryPartsSplit(t: Task, order: seq<nat>, sl: Slice, a: nat, base: nat, parts: seq<Slice>)
    requires ValidTask(t) && Indices(order, |t.data|) && InBounds(sl, |order|) && a < |t.meta.numberOfCategories|
    requires Tiles(parts, sl.left, sl.right)
    requires Grouped(order, parts, CategoryKey(t.data, a), base)
    ensures Splits(t, order, sl, CategoricalHoles(a, base, t.meta.numberOfCategories[a]), base, parts)
    ensures forall part :: part in parts ==> part.address < base + t.meta.numberOfCategories[a]
  {
    var key := CategoryKey(t.data, a);
    forall part | part in parts ensures part.address < base + t.meta.numberOfCategories[a] {
      TilesOrdered(parts, sl.left, sl.right);
      assert Uniform(order, part, key, base);
      var p := order[part.left];
      assert ValidDatum(t.data[p], t.meta);
    }
    PartsSplit(t, order, sl, parts, key, base, CategoricalHoles(a, base, t.meta.numberOfCategories[a]));
  }

  /** Two categories in the slice make at least two parts. */
  lemma CategoriesMakeParts(t: Task, order: seq<nat>, sl: Slice, a: nat, base: nat, parts: seq<Slice>)
    requires InBounds(sl, |order|) && Tiles(parts, sl.left, sl.right) &&
               Grouped(order, parts, CategoryKey(t.data, a), base)
    ensures |parts| >= 2 || OneCategory(t, order, sl, a)
  {
    if |parts| == 1 {
      var key := CategoryKey(t.data, a);
      forall p: nat | Contains(order, sl, p) ensures key(p) == parts[0].address - base {
        var i :| sl.left <= i <= sl.right && order[i] == p;
      }
    }
  }

  ghost predicate OneCategory(t: Task, order: seq<nat>, sl: Slice, a: nat) {
    forall p, q: nat :: Contains(order, sl, p) && Contains(order, sl, q) ==>
        CategoryOf(t.data, a, p) == CategoryOf(t.data, a, q)
  }

  /** Splits a slice on a categorical attribute. */
  method RunCategoricalSplit(t: Task, order: array<nat>, tree: DecisionTree, sl: Slice, a: nat)
    returns (parts: seq<Slice>)
    requires ValidTask(t) && Indices(order[..], |t.data|) && InBounds(sl, order.Length) &&
               a < |t.meta.numberOfCategories|
    modifies order, tree
    ensures Permuted(old(order[..]), order[..], sl.left, sl.right) && Indices(order[..], |t.data|)
    ensures var node := CategoricalHoles(a, old(tree.next), t.meta.numberOfCategories[a]);
            tree.root == Fill(old(tree.root), sl.address, node) && Splits(t, order[..], sl, node, old(tree.next), parts)
    ensures tree.next == old(tree.next) + t.meta.numberOfCategories[a]
    ensures forall part :: part in parts ==> part.address < tree.next
    ensures Tiles(parts, sl.left, sl.right) && (|parts| >= 2 || OneCategory(t, order[..], sl, a))
  {
    ghost var before := order[..];
    SortSlice(order, sl.left, sl.right, CategoryKey(t.data, a));
    RearrangedIndices(before, order[..], Slice(sl.left, sl.right, 0), |t.data|);
    var base := tree.next;
    tree.CreateNode(sl.address, CategoricalHoles(a, base, t.meta.numberOfCategories[a]), t.meta.numberOfCategories[a]);
    parts := GroupByCategory(t, order, sl, a, base);
    CategoryPartsSplit(t, order[..], sl, a, base, parts);
    CategoriesMakeParts(t, order[..], sl, a, base, parts);
  }

  // ---------- leaves ----------

  /** Labels data points, first the positive and then the negative ones. */
  method LabelPoints(points: Sample, pos: set<nat>, neg: set<nat>)
    requires pos !! neg && (forall p :: p in pos ==> p < |points.labels|)
    requires forall p :: p in neg ==> p < |points.labels|
    modifies points
    ensures points.labels == Apply(old(points.labels), pos, neg)
  {
    ghost var before := points.labels;
    var todo := pos;
    while todo != {}
      invariant todo <= pos && |points.labels| == |before|
      invariant forall p :: 0 <= p < |before| ==>
                  points.labels[p] == if p in pos && p !in todo then Classified(true) else before[p]
      decreases todo
    {
      var p :| p in todo;
      todo := todo - {p};
      points.labels := points.labels[p := Classified(true)];
    }
    todo := neg;
    while todo != {}
      invariant todo <= neg && |points.labels| == |before|
      invariant forall p :: 0 <= p < |before| ==>
        points.labels[p] == if p in pos then Classified(true) else if p in neg && p !in todo then Classified(false)
          else before[p]
      decreases todo
    {
      var p :| p in todo;
      todo := todo - {p};
      points.labels := points.labels[p := Classified(false)];
    }
  }

  /** Creates a leaf and labels the points that have to be labelled. */
  method RunLeafCreation(points: Sample, tree: DecisionTree, sl: Slice, value: bool, pos: set<nat>, neg: set<nat>)
    requires pos !! neg && (forall p :: p in pos ==> p < |points.labels|)
    requires forall p :: p in neg ==> p < |points.labels|
    modifies points, tree
    ensures points.labels == Apply(old(points.labels), pos, neg)
    ensures tree.root == Fill(old(tree.root), sl.address, Leaf(value)) && tree.next == old(tree.next)
  {
    tree.CreateNode(sl.address, Leaf(value), 0);
    LabelPoints(points, pos, neg);
  }
}
