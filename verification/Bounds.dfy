/**
 Distinguishing data points by bounded cuts, and the equalities that a bound adds to a sample.
 */
module Bounds {
  import opened Horn
  import opened Tree

  predicate CutBetween(x: int, y: int, cut: int, bound: nat) {
    -(bound as int) <= cut <= bound && (x <= cut) != (y <= cut)
  }

  /** Some categorical value differs, or some cut within the bound separates two integer values. */
  ghost predicate Separable(d: Datum, e: Datum, bound: nat)
    requires |d.categories| == |e.categories| && |d.ints| == |e.ints|
  {
    || (exists a :: 0 <= a < |d.categories| && d.categories[a] != e.categories[a])
    || (exists a, cut :: 0 <= a < |d.ints| && CutBetween(d.ints[a], e.ints[a], cut, bound))
  }

  /** The smallest absolute value of a cut between two different values, compared with the bound. */
  predicate ValuesSeparable(x: int, y: int, bound: nat) {
    if x == y then false
    else
      var low, high := if x < y then x else y, if x < y then y else x;
      if low <= 0 && high > 0 then true
      else if high <= 0 then -1 * (high - 1) <= bound
      else low <= bound
  }

  /** The case distinction finds a separating cut exactly if there is one. */
  lemma ValuesSeparableIffCut(x: int, y: int, bound: nat)
    ensures ValuesSeparable(x, y, bound) <==> exists cut :: CutBetween(x, y, cut, bound)
  {
    if ValuesSeparable(x, y, bound) {
      var low, high := if x < y then x else y, if x < y then y else x;
      var cut := if low <= 0 && high > 0 then 0 else if high <= 0 then high - 1 else low;
      assert CutBetween(x, y, cut, bound);
    }
  }

  /** Can a tree whose cuts are bounded tell the two data points apart? */
  method IsDistinguishable(d: Datum, e: Datum, bound: nat) returns (result: bool)
    requires |d.categories| == |e.categories| && |d.ints| == |e.ints|
    ensures result <==> Separable(d, e, bound)
  {
    var a := 0;
    while a < |d.categories|
      invariant 0 <= a <= |d.categories|
      invariant forall b :: 0 <= b < a ==> d.categories[b] == e.categories[b]
    {
      if d.categories[a] != e.categories[a] {
        return true;
      }
      a := a + 1;
    }
    a := 0;
    while a < |d.ints|
      invariant 0 <= a <= |d.ints|
      invariant forall b, cut :: 0 <= b < a ==> !CutBetween(d.ints[b], e.ints[b], cut, bound)
    {
      ValuesSeparableIffCut(d.ints[a], e.ints[a], bound);
      if ValuesSeparable(d.ints[a], e.ints[a], bound) {
        return true;
      }
      a := a + 1;
    }
    return false;
  }

  // ---------- equalities ----------

  /** The pairs up to (`i`, `j`) that cannot be told apart have the same value. */
  ghost predicate EqualUpTo(S: set<nat>, data: seq<Datum>, meta: Metadata, bound: nat, i: nat, j: nat)
    requires ValidData(data, meta)
  {
    forall p, q :: 0 <= p < q < |data| && (p < i || (p == i && q < j)) && !Separable(data[p], data[q], bound) ==>
        (p in S <==> q in S)
  }

  ghost predicate AllHold(S: set<nat>, hs: seq<Constraint>) {
    forall k :: 0 <= k < |hs| ==> Satisfies(S, hs[k])
  }

  ghost predicate Equalities(hs: seq<Constraint>, data: seq<Datum>, meta: Metadata, bound: nat, i: nat, j: nat)
    requires ValidData(data, meta)
  {
    AllWellFormed(hs, |data|) && forall S :: AllHold(S, hs) <==> EqualUpTo(S, data, meta, bound, i, j)
  }

  lemma EqualityAdded(hs: seq<Constraint>, data: seq<Datum>, meta: Metadata, bound: nat, i: nat, j: nat)
    requires ValidData(data, meta) && i < j < |data| && Equalities(hs, data, meta, bound, i, j)
    requires !Separable(data[i], data[j], bound)
    ensures Equalities(hs + [Constraint([i], Some(j)), Constraint([j], Some(i))], data, meta, bound, i, j + 1)
  {
    var to, from := Constraint([i], Some(j)), Constraint([j], Some(i));
    var more := hs + [to, from];
    assert forall k :: 0 <= k < |hs| ==> more[k] == hs[k];
    assert more[|hs|] == to && more[|hs| + 1] == from;
    forall S ensures AllHold(S, more) <==> EqualUpTo(S, data, meta, bound, i, j + 1) {
      EqualStep(S, data, meta, bound, i, j);
      assert i in to.premises && j in from.premises;
      assert Satisfies(S, to) && Satisfies(S, from) <==> (i in S <==> j in S);
      if AllHold(S, hs) && Satisfies(S, to) && Satisfies(S, from) {
        assert forall k :: 0 <= k < |more| ==> more[k] == if k < |hs| then hs[k] else if k == |hs| then to else from;
      }
      if AllHold(S, more) {
        assert AllHold(S, hs) && Satisfies(S, to) && Satisfies(S, from);
      }
    }
  }

  lemma EqualStep(S: set<nat>, data: seq<Datum>, meta: Metadata, bound: nat, i: nat, j: nat)
    requires ValidData(data, meta) && i < j < |data| && !Separable(data[i], data[j], bound)
    ensures EqualUpTo(S, data, meta, bound, i, j + 1) <==> EqualUpTo(S, data, meta, bound, i, j) && (i in S <==> j in S)
  {
  }

  /** For every pair of indistinguishable data points, two constraints that make them equal. */
  method GetIndistinguishableDatapoints(data: seq<Datum>, ghost meta: Metadata, bound: nat)
    returns (hs: seq<Constraint>)
    requires ValidData(data, meta)
    ensures AllWellFormed(hs, |data|)
    ensures forall S :: AllHold(S, hs) <==>
              forall p, q :: 0 <= p < q < |data| && !Separable(data[p], data[q], bound) ==> (p in S <==> q in S)
  {
    hs := [];
    var i := 0;
    while i < |data|
      invariant 0 <= i <= |data|
      invariant Equalities(hs, data, meta, bound, i, i + 1)
    {
      hide EqualUpTo;
      var j := i + 1;
      while j < |data|
        invariant i < j <= |data|
        invariant Equalities(hs, data, meta, bound, i, j)
      {
        assert ValidDatum(data[i], meta) && ValidDatum(data[j], meta);
        var distinguishable := IsDistinguishable(data[i], data[j], bound);
        if !distinguishable {
          EqualityAdded(hs, data, meta, bound, i, j);
          hs := hs + [Constraint([i], Some(j)), Constraint([j], Some(i))];
        } else {
          NothingAdded(hs, data, meta, bound, i, j);
        }
        j := j + 1;
      }
      NextRow(hs, data, meta, bound, i);
      i := i + 1;
    }
  }

  lemma NothingAdded(hs: seq<Constraint>, data: seq<Datum>, meta: Metadata, bound: nat, i: nat, j: nat)
    requires ValidData(data, meta) && i < j < |data| && Equalities(hs, data, meta, bound, i, j)
    requires Separable(data[i], data[j], bound)
    ensures Equalities(hs, data, meta, bound, i, j + 1)
  {
    forall S ensures EqualUpTo(S, data, meta, bound, i, j) <==> EqualUpTo(S, data, meta, bound, i, j + 1) {}
  }

  lemma NextRow(hs: seq<Constraint>, data: seq<Datum>, meta: Metadata, bound: nat, i: nat)
    requires ValidData(data, meta) && i < |data| && Equalities(hs, data, meta, bound, i, |data|)
    ensures Equalities(hs, data, meta, bound, i + 1, i + 2)
  {
    forall S ensures EqualUpTo(S, data, meta, bound, i, |data|) <==> EqualUpTo(S, data, meta, bound, i + 1, i + 2) {}
  }

  // ---------- what the bound means for trees ----------

  /** A tree with bounded cuts routes indistinguishable points to the same place. */
  lemma {:induction false} IndistinguishableAgree(tree: Node, d: Datum, e: Datum, meta: Metadata, bound: nat)
    requires ValidNode(tree, meta) && ValidDatum(d, meta) && ValidDatum(e, meta)
    requires CutsWithin(tree, bound) && !Separable(d, e, bound)
    ensures Reach(tree, d, meta) == Reach(tree, e, meta)
  {
    match tree
    case Hole(_) =>
    case Leaf(_) =>
    case IntNode(a, t, l, r) =>
      assert !CutBetween(d.ints[a], e.ints[a], t, bound);
      IndistinguishableAgree(l, d, e, meta, bound);
      IndistinguishableAgree(r, d, e, meta, bound);
    case CategoricalNode(a, children) =>
      IndistinguishableAgree(children[d.categories[a]], d, e, meta, bound);
  }

  /** The constraints that a bound adds, as `GetIndistinguishableDatapoints` promises them. */
  ghost predicate BoundConstraints(extra: seq<Constraint>, data: seq<Datum>, meta: Metadata, bound: nat)
    requires ValidData(data, meta)
  {
    forall S :: AllHold(S, extra) <==>
      forall p, q :: 0 <= p < q < |data| && !Separable(data[p], data[q], bound) ==> (p in S <==> q in S)
  }

  lemma ModelOfMore(S: set<nat>, labels: seq<Label>, hs: seq<Constraint>, extra: seq<Constraint>)
    ensures Model(S, labels, hs + extra) <==> Model(S, labels, hs) && AllHold(S, extra)
  {
    var all := hs + extra;
    assert forall k :: 0 <= k < |hs| ==> all[k] == hs[k];
    assert forall k :: 0 <= k < |extra| ==> all[|hs| + k] == extra[k];
  }

  /** For trees with bounded cuts, the added constraints change nothing. */
  lemma BoundedConsistency(tree: Node, data: seq<Datum>, meta: Metadata, labels: seq<Label>, hs: seq<Constraint>,
                           extra: seq<Constraint>, bound: nat)
    requires ValidNode(tree, meta) && ValidData(data, meta) && CutsWithin(tree, bound) &&
               BoundConstraints(extra, data, meta, bound)
    ensures Consistent(tree, data, meta, labels, hs + extra) <==> Consistent(tree, data, meta, labels, hs)
  {
    var S := TruePoints(tree, data, meta);
    forall p, q | 0 <= p < q < |data| && !Separable(data[p], data[q], bound) ensures p in S <==> q in S {
      IndistinguishableAgree(tree, data[p], data[q], meta, bound);
    }
    ModelOfMore(S, labels, hs, extra);
  }

  /** If the enlarged sample is contradictory, no tree with bounded cuts is consistent with the original one. */
  lemma BoundTooSmall(tree: Node, data: seq<Datum>, meta: Metadata, labels: seq<Label>, hs: seq<Constraint>,
                      extra: seq<Constraint>, bound: nat)
    requires ValidNode(tree, meta) && ValidData(data, meta) && BoundConstraints(extra, data, meta, bound)
    requires !Satisfiable(labels, hs + extra)
    ensures CutsWithin(tree, bound) ==> !Consistent(tree, data, meta, labels, hs)
  {
    if CutsWithin(tree, bound) {
      BoundedConsistency(tree, data, meta, labels, hs, extra, bound);
    }
  }

  // ---------- constraints given by indexes ----------

  /** A constraint as a pair of sets of data point numbers; the second one has at most one meaningful element. */
  datatype Indexes = Indexes(premises: set<nat>, conclusions: set<nat>)

  predicate IndexInRange(h: Indexes, n: nat) {
    (forall p :: p in h.premises ==> p < n) && (h.conclusions == {} || Smallest(h.conclusions) < n)
  }

  function Smallest(s: set<nat>): (m: nat)
    requires s != {}
    ensures m in s && forall x :: x in s ==> m <= x
  {
    SmallestExists(s);
    var m :| m in s && forall x :: x in s ==> m <= x;
    m
  }

  lemma {:induction false} SmallestExists(s: set<nat>)
    requires s != {}
    ensures exists m :: m in s && forall x :: x in s ==> m <= x
  {
    var y :| y in s;
    if s != {y} {
      SmallestExists(s - {y});
      var m :| m in s - {y} && forall x :: x in s - {y} ==> m <= x;
      var least := if m < y then m else y;
      forall x | x in s ensures least <= x { if x != y { assert x in s - {y}; } }
      assert least in s;
    } else {
      assert forall x :: x in s ==> y <= x;
    }
  }

  ghost predicate Renders(c: Constraint, h: Indexes) {
    && (forall p :: p in c.premises <==> p in h.premises)
    && c.conclusion == (if h.conclusions == {} then None else Some(Smallest(h.conclusions)))
  }

  /** Turns pairs of index sets into constraints; none if an index that is looked at is out of range. */
  method IndexesToConstraints(indexes: seq<Indexes>, n: nat) returns (r: Option<seq<Constraint>>)
    ensures r.Some? <==> forall k :: 0 <= k < |indexes| ==> IndexInRange(indexes[k], n)
    ensures r.Some? ==> |r.value| == |indexes| && AllWellFormed(r.value, n)
    ensures r.Some? ==> forall k :: 0 <= k < |indexes| ==> Renders(r.value[k], indexes[k])
  {
    hide Smallest;
    var constraints: seq<Constraint> := [];
    var k := 0;
    while k < |indexes|
      invariant 0 <= k <= |indexes| && |constraints| == k && AllWellFormed(constraints, n)
      invariant forall j :: 0 <= j < k ==> IndexInRange(indexes[j], n) && Renders(constraints[j], indexes[j])
    {
      var premises: seq<nat> := [];
      var rest := indexes[k].premises;
      while rest != {}
        invariant rest <= indexes[k].premises
        invariant forall p :: p in premises <==> p in indexes[k].premises && p !in rest
        invariant forall p :: p in premises ==> p < n
        decreases |rest|
      {
        var p := Smallest(rest);
        if p >= n {
          return None;
        }
        premises := premises + [p];
        rest := rest - {p};
      }
      var conclusion := if indexes[k].conclusions == {} then None else Some(Smallest(indexes[k].conclusions));
      if conclusion.Some? && conclusion.value >= n {
        return None;
      }
      constraints := constraints + [Constraint(premises, conclusion)];
      k := k + 1;
    }
    r := Some(constraints);
  }
}
