/**
 Slices, and the invariant of the learning loop: every slice holds exactly the data points that the
 tree routes to the hole the slice is to fill, and finished leaves agree with the labels.
 */
module Slices {
  import opened Horn
  import opened Tree

  /** The data points at positions `left` to `right`, and the address of the node they wait for. */
  datatype Slice = Slice(left: nat, right: nat, address: nat)

  predicate InBounds(sl: Slice, n: nat) {
    sl.left <= sl.right < n
  }

  /** Is the data point `p` among those of the slice? */
  ghost predicate Contains(order: seq<nat>, sl: Slice, p: nat) {
    exists i :: sl.left <= i <= sl.right && i < |order| && order[i] == p
  }

  predicate Apart(a: Slice, b: Slice) {
    (a.right < b.left || b.right < a.left) && a.address != b.address
  }

  ghost predicate WellPlaced(slices: seq<Slice>, n: nat) {
    && (forall k :: 0 <= k < |slices| ==> InBounds(slices[k], n))
    && (forall j, k :: 0 <= j < k < |slices| ==> Apart(slices[j], slices[k]))
  }

  /** A learning problem: everything that does not change while the tree is built. */
  datatype Task = Task(data: seq<Datum>, meta: Metadata, hs: seq<Constraint>)

  ghost predicate ValidTask(t: Task) {
    ValidData(t.data, t.meta) && AllWellFormed(t.hs, |t.data|)
  }

  ghost predicate Routed(t: Task, order: seq<nat>, slices: seq<Slice>, root: Node)
    requires ValidTask(t) && ValidNode(root, t.meta)
  {
    && (forall sl, p :: sl in slices && 0 <= p < |t.data| ==>
          (Contains(order, sl, p) <==> Reach(root, t.data[p], t.meta) == Hole(sl.address)))
    && (forall p :: 0 <= p < |t.data| && Reach(root, t.data[p], t.meta).Hole? ==>
          exists sl :: sl in slices && sl.address == Reach(root, t.data[p], t.meta).address)
  }

  ghost predicate LeavesMatch(t: Task, root: Node, labels: seq<Label>)
    requires ValidTask(t) && ValidNode(root, t.meta)
  {
    |labels| == |t.data| &&
    forall p :: 0 <= p < |t.data| && Reach(root, t.data[p], t.meta).Leaf? ==>
      labels[p] == Classified(Reach(root, t.data[p], t.meta).output)
  }

  ghost predicate Indices(order: seq<nat>, n: nat) {
    forall i :: 0 <= i < |order| ==> order[i] < n
  }

  ghost predicate LearnInv(t: Task, order: seq<nat>, slices: seq<Slice>, root: Node, next: nat, labels: seq<Label>) {
    && ValidTask(t) && ValidNode(root, t.meta) && Indices(order, |t.data|)
    && WellPlaced(slices, |order|)
    && (forall sl :: sl in slices ==> sl.address < next)
    && Routed(t, order, slices, root)
    && LeavesMatch(t, root, labels)
    && Closed(labels, t.hs)
  }

  /** The positions outside the slice are untouched and the slice holds the same points. */
  ghost predicate Rearranged(a: seq<nat>, b: seq<nat>, sl: Slice) {
    && |b| == |a|
    && (forall i :: 0 <= i < |a| && !(sl.left <= i <= sl.right) ==> b[i] == a[i])
    && (forall p :: Contains(a, sl, p) <==> Contains(b, sl, p))
  }

  /** Rearranging one slice keeps the invariant. */
  lemma RearrangeKeeps(t: Task, a: seq<nat>, b: seq<nat>, sl: Slice, rest: seq<Slice>, root: Node, next: nat,
                       labels: seq<Label>)
    requires LearnInv(t, a, [sl] + rest, root, next, labels) && Rearranged(a, b, sl)
    ensures LearnInv(t, b, [sl] + rest, root, next, labels)
  {
    var all := [sl] + rest;
    assert all[0] == sl;
    RearrangedIndices(a, b, sl, |t.data|);
    forall other, p | other in all ensures Contains(a, other, p) <==> Contains(b, other, p) {
      if other != sl {
        HeadApart(sl, rest, other, |a|);
        assert forall i :: other.left <= i <= other.right ==> a[i] == b[i];
      }
    }
  }

  lemma RearrangedIndices(a: seq<nat>, b: seq<nat>, sl: Slice, n: nat)
    requires Rearranged(a, b, sl) && Indices(a, n)
    ensures Indices(b, n)
  {
    forall i | 0 <= i < |b| ensures b[i] < n {
      if sl.left <= i <= sl.right { assert Contains(b, sl, b[i]); }
    }
  }

  lemma HeadApart(sl: Slice, rest: seq<Slice>, other: Slice, n: nat)
    requires WellPlaced([sl] + rest, n) && other in rest
    ensures InBounds(sl, n) && InBounds(other, n) && Apart(sl, other) && WellPlaced(rest, n)
  {
    var all := [sl] + rest;
    assert all[0] == sl && forall k :: 0 <= k < |rest| ==> all[k + 1] == rest[k];
  }

  /** The order of the list of slices does not matter. */
  lemma PickKeeps(t: Task, order: seq<nat>, slices: seq<Slice>, root: Node, next: nat, labels: seq<Label>, k: nat)
    requires LearnInv(t, order, slices, root, next, labels) && k < |slices|
    ensures LearnInv(t, order, [slices[k]] + (slices[..k] + slices[k + 1..]), root, next, labels)
  {
    hide Contains, Reach, ValidTask, ValidNode, Closed, Apart, InBounds;
    PickPlaced(slices, k, |order|);
  }

  lemma PickPlaced(slices: seq<Slice>, k: nat, n: nat)
    requires WellPlaced(slices, n) && k < |slices|
    ensures var all := [slices[k]] + (slices[..k] + slices[k + 1..]);
            WellPlaced(all, n) && forall sl :: sl in all <==> sl in slices
  {
    var all := [slices[k]] + (slices[..k] + slices[k + 1..]);
    assert slices == slices[..k] + [slices[k]] + slices[k + 1..];
    assert forall sl :: sl in all <==> sl in slices;
    assert forall j :: 0 <= j < |all| ==> all[j] == slices[if j == 0 then k else if j <= k then j - 1 else j];
  }

  /** Turning a slice into a leaf: all its points have the leaf's label afterwards. */
  lemma LeafKeeps(t: Task, order: seq<nat>, sl: Slice, rest: seq<Slice>, root: Node, next: nat,
                  labels: seq<Label>, value: bool, labels': seq<Label>)
    requires LearnInv(t, order, [sl] + rest, root, next, labels)
    requires Grows(labels, labels') && Closed(labels', t.hs)
    requires forall p: nat :: p < |labels'| && Contains(order, sl, p) ==> labels'[p] == Classified(value)
    ensures LearnInv(t, order, rest, Fill(root, sl.address, Leaf(value)), next, labels')
  {
    hide Contains, Fill, Reach, ValidNode, Closed, Routed, WellFormed;
    var all, root' := [sl] + rest, Fill(root, sl.address, Leaf(value));
    assert sl in all && forall other :: other in rest ==> other in all;
    assert WellPlaced(rest, |order|) by { RestPlaced(sl, rest, |order|); }
    FillLeafValid(root, sl.address, value, t.meta);
    LeafRouted(t, order, sl, rest, root, value);
    forall p | 0 <= p < |t.data| && Reach(root', t.data[p], t.meta).Leaf?
      ensures labels'[p] == Classified(Reach(root', t.data[p], t.meta).output)
    {
      FilledLeafReach(t, root, sl.address, value, p);
      RoutedAt(t, order, all, root, sl, p);
    }
  }

  lemma RestPlaced(sl: Slice, rest: seq<Slice>, n: nat)
    requires WellPlaced([sl] + rest, n)
    ensures WellPlaced(rest, n)
  {
    var all := [sl] + rest;
    assert forall k :: 0 <= k < |rest| ==> all[k + 1] == rest[k];
  }

  lemma RoutedAt(t: Task, order: seq<nat>, slices: seq<Slice>, root: Node, sl: Slice, p: nat)
    requires ValidTask(t) && ValidNode(root, t.meta) && Routed(t, order, slices, root) && sl in slices && p < |t.data|
    ensures Contains(order, sl, p) <==> Reach(root, t.data[p], t.meta) == Hole(sl.address)
  {
    hide Contains, Reach;
  }

  lemma LeafRouted(t: Task, order: seq<nat>, sl: Slice, rest: seq<Slice>, root: Node, value: bool)
    requires ValidTask(t) && ValidNode(root, t.meta) && WellPlaced([sl] + rest, |order|) &&
               Routed(t, order, [sl] + rest, root)
    ensures ValidNode(Fill(root, sl.address, Leaf(value)), t.meta)
    ensures Routed(t, order, rest, Fill(root, sl.address, Leaf(value)))
  {
    hide Contains, Fill, Reach, ValidNode, WellPlaced, WellFormed;
    var all, root' := [sl] + rest, Fill(root, sl.address, Leaf(value));
    assert forall other :: other in all <==> other == sl || other in rest;
    FillLeafValid(root, sl.address, value, t.meta);
    forall other, p | other in rest && 0 <= p < |t.data|
      ensures Contains(order, other, p) <==> Reach(root', t.data[p], t.meta) == Hole(other.address)
    {
      HeadApart(sl, rest, other, |order|);
      FilledLeafReach(t, root, sl.address, value, p);
      RoutedAt(t, order, all, root, other, p);
    }
    forall p | 0 <= p < |t.data| && Reach(root', t.data[p], t.meta).Hole?
      ensures exists other :: other in rest && other.address == Reach(root', t.data[p], t.meta).address
    {
      FilledLeafReach(t, root, sl.address, value, p);
      var other :| other in all && other.address == Reach(root, t.data[p], t.meta).address;
      assert other in rest;
    }
  }

  lemma FillLeafValid(root: Node, address: nat, value: bool, meta: Metadata)
    requires ValidNode(root, meta)
    ensures ValidNode(Fill(root, address, Leaf(value)), meta)
  {
    FillValid(root, address, Leaf(value), meta);
  }

  lemma FilledLeafReach(t: Task, root: Node, address: nat, value: bool, p: nat)
    requires ValidTask(t) && ValidNode(root, t.meta) && p < |t.data|
    ensures ValidDatum(t.data[p], t.meta) && ValidNode(Fill(root, address, Leaf(value)), t.meta)
    ensures Reach(Fill(root, address, Leaf(value)), t.data[p], t.meta) ==
              if Reach(root, t.data[p], t.meta) == Hole(address) then Leaf(value) else Reach(root, t.data[p], t.meta)
  {
    FillReach(root, address, Leaf(value), t.data[p], t.meta);
  }

  /** What a split job promises: its slices lie in the old one and hold what the new node routes to them. */
  ghost predicate Splits(t: Task, order: seq<nat>, sl: Slice, node: Node, next: nat, parts: seq<Slice>)
    requires ValidTask(t)
  {
    && ValidNode(node, t.meta) && WellPlaced(parts, |order|)
    && (forall part :: part in parts ==> sl.left <= part.left && part.right <= sl.right && next <= part.address)
    && (forall part, p :: part in parts && 0 <= p < |t.data| ==>
          (Contains(order, part, p) <==>
            Contains(order, sl, p) && Reach(node, t.data[p], t.meta) == Hole(part.address)))
    && (forall p :: 0 <= p < |t.data| && Contains(order, sl, p) ==>
          Reach(node, t.data[p], t.meta).Hole? &&
          exists part :: part in parts && part.address == Reach(node, t.data[p], t.meta).address)
  }

  lemma SplitPlaced(n: nat, sl: Slice, rest: seq<Slice>, next: nat, parts: seq<Slice>)
    requires WellPlaced([sl] + rest, n) && WellPlaced(parts, n)
    requires forall other :: other in rest ==> other.address < next
    requires forall part :: part in parts ==> sl.left <= part.left && part.right <= sl.right && next <= part.address
    ensures WellPlaced(rest + parts, n)
  {
    var new_ := rest + parts;
    forall other | other in rest ensures Apart(sl, other) && WellPlaced(rest, n) { HeadApart(sl, rest, other, n); }
    forall j, k | 0 <= j < k < |new_| ensures Apart(new_[j], new_[k]) {
      if j < |rest| <= k {
        assert new_[k] == parts[k - |rest|] && new_[j] == rest[j];
      }
    }
  }

  /** Where the points go once the node has been created. */
  lemma SplitReach(t: Task, order: seq<nat>, sl: Slice, rest: seq<Slice>, root: Node, node: Node, p: nat)
    requires ValidTask(t) && ValidNode(root, t.meta) && ValidNode(node, t.meta) && p < |t.data|
    requires Routed(t, order, [sl] + rest, root)
    ensures ValidNode(Fill(root, sl.address, node), t.meta)
    ensures Reach(Fill(root, sl.address, node), t.data[p], t.meta) ==
              if Contains(order, sl, p) then Reach(node, t.data[p], t.meta) else Reach(root, t.data[p], t.meta)
  {
    FillReach(root, sl.address, node, t.data[p], t.meta);
    assert sl in [sl] + rest;
  }

  lemma SplitRouted(t: Task, order: seq<nat>, sl: Slice, rest: seq<Slice>, root: Node, next: nat, node: Node,
                    parts: seq<Slice>)
    requires ValidTask(t) && ValidNode(root, t.meta) && WellPlaced([sl] + rest, |order|)
    requires Routed(t, order, [sl] + rest, root)
    requires forall other :: other in [sl] + rest ==> other.address < next
    requires Splits(t, order, sl, node, next, parts)
    requires ValidNode(Fill(root, sl.address, node), t.meta)
    ensures Routed(t, order, rest + parts, Fill(root, sl.address, node))
  {
    var all, root' := [sl] + rest, Fill(root, sl.address, node);
    assert sl in all && forall other :: other in all <==> other == sl || other in rest;
    forall p | 0 <= p < |t.data|
      ensures Reach(root', t.data[p], t.meta) ==
                if Contains(order, sl, p) then Reach(node, t.data[p], t.meta) else Reach(root, t.data[p], t.meta)
    {
      SplitReach(t, order, sl, rest, root, node, p);
    }
    forall other | other in rest ensures Apart(sl, other) { HeadApart(sl, rest, other, |order|); }
    forall p | 0 <= p < |t.data| && Reach(root', t.data[p], t.meta).Hole?
      ensures exists other :: other in rest + parts && other.address == Reach(root', t.data[p], t.meta).address
    {
      if Contains(order, sl, p) {
        var part :| part in parts && part.address == Reach(node, t.data[p], t.meta).address;
        assert part in rest + parts;
      } else {
        var other :| other in all && other.address == Reach(root, t.data[p], t.meta).address;
        assert other in rest + parts;
      }
    }
  }

  /** Splitting a slice keeps the invariant. */
  lemma SplitKeeps(t: Task, order: seq<nat>, sl: Slice, rest: seq<Slice>, root: Node, next: nat, labels: seq<Label>,
                   node: Node, parts: seq<Slice>, next': nat)
    requires LearnInv(t, order, [sl] + rest, root, next, labels)
    requires Splits(t, order, sl, node, next, parts)
    requires next <= next' && forall part :: part in parts ==> part.address < next'
    ensures LearnInv(t, order, rest + parts, Fill(root, sl.address, node), next', labels)
  {
    var all := [sl] + rest;
    assert sl in all && forall other :: other in rest ==> other in all;
    SplitPlaced(|order|, sl, rest, next, parts);
    FillValid(root, sl.address, node, t.meta);
    SplitRouted(t, order, sl, rest, root, next, node, parts);
    forall p | 0 <= p < |t.data| { SplitReach(t, order, sl, rest, root, node, p); }
  }

  /** The first slice holds all data points, and the tree is one hole. */
  lemma StartKeeps(t: Task, order: seq<nat>, labels: seq<Label>)
    requires ValidTask(t) && |labels| == |t.data| && Closed(labels, t.hs)
    requires |order| == |t.data| > 0 && Indices(order, |t.data|) && forall p :: 0 <= p < |t.data| ==> p in order
    ensures LearnInv(t, order, [Slice(0, |order| - 1, 0)], Hole(0), 1, labels)
  {
    var sl := Slice(0, |order| - 1, 0);
    forall p | 0 <= p < |t.data| ensures Contains(order, sl, p) {
      assert p in order;
    }
    assert sl in [sl];
  }

  /** When no slice is left, the tree is consistent with the labels, all of which are set, and the constraints. */
  lemma FinishedConsistent(t: Task, order: seq<nat>, root: Node, next: nat, labels: seq<Label>)
    requires LearnInv(t, order, [], root, next, labels)
    ensures Consistent(root, t.data, t.meta, labels, t.hs)
    ensures forall p :: 0 <= p < |labels| ==> labels[p].Classified?
  {
    assert forall p :: 0 <= p < |t.data| ==> Reach(root, t.data[p], t.meta).Leaf?;
    assert TruePoints(root, t.data, t.meta) == TrueSet(labels);
  }
}
