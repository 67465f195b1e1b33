/**
 The teacher's view of the learner: it adds counterexamples over points of the relations, and gets
 conjectures for the relations.
 */
module LearnerInterface {
  import opened Horn
  import opened Tree
  import opened Slices
  import opened Jobs
  import opened JobManager
  import opened Encoding
  import opened Translation
  import opened Bounds
  import opened Driver

  /** Arguments of a relation. */
  datatype Point = Point(relation: nat, values: seq<Value>)

  datatype Counterexample = Counterexample(lhs: seq<Point>, rhs: seq<Point>)

  datatype Status = Added | Contradicting | Malformed

  // ---------- interpretations ----------

  ghost predicate Fulfils(I: Point -> bool, ce: Counterexample) {
    (forall q :: q in ce.lhs ==> I(q)) ==> exists q :: q in ce.rhs && I(q)
  }

  ghost predicate FulfilsAll(I: Point -> bool, given: seq<Counterexample>) {
    forall ce :: ce in given ==> Fulfils(I, ce)
  }

  ghost predicate IndexHolds(I: Point -> bool, points: seq<Point>, h: Indexes) {
    (forall p :: p in h.premises && p < |points| ==> I(points[p])) ==>
      exists p :: p in h.conclusions && p < |points| && I(points[p])
  }

  ghost predicate LabelsHold(I: Point -> bool, points: seq<Point>, labels: seq<Label>) {
    forall p :: 0 <= p < |labels| && p < |points| && labels[p].Classified? ==> (I(points[p]) <==> labels[p].value)
  }

  /** The interpretation agrees with the labels and satisfies the constraints of the sample. */
  ghost predicate SampleHolds(I: Point -> bool, points: seq<Point>, labels: seq<Label>, indexes: seq<Indexes>) {
    && LabelsHold(I, points, labels)
    && forall k :: 0 <= k < |indexes| ==> IndexHolds(I, points, indexes[k])
  }

  /** The interpretation that makes exactly the numbered points true. */
  ghost function Among(S: set<nat>, points: seq<Point>): Point -> bool {
    (q: Point) => exists p :: p in S && p < |points| && points[p] == q
  }

  /** What the conjectures say about a point. */
  function Reading(conjectures: seq<Formula>): Point -> bool {
    (q: Point) => q.relation < |conjectures| && EvalFormula(conjectures[q.relation], q.values)
  }

  // ---------- keys ----------

  function Extended(values: seq<Value>): seq<Value> {
    EvalTerms(AllTerms(SortsOf(values)), values)
  }

  /** The key of a point that has been encoded: the derived values have been appended to it. */
  function KeyOf(q: Point): Point {
    Point(q.relation, Extended(q.values))
  }

  lemma ExtendedPrefix(values: seq<Value>)
    ensures |Extended(values)| == |AllTerms(SortsOf(values))| >= |values| && Extended(values)[..|values|] == values
  {
    forall i | 0 <= i < |values| ensures Extended(values)[i] == values[i] { ArgumentFirst(SortsOf(values), i); }
  }

  ghost predicate WellSorted(q: Point, relations: seq<seq<Sort>>) {
    q.relation < |relations| && SortsOf(q.values) == relations[q.relation]
  }

  /**
   Looking a point up before and after it has been encoded: its key is found, as it is or extended,
   exactly for the point itself.
   */
  lemma KeysAgree(q: Point, r: Point, relations: seq<seq<Sort>>)
    requires WellSorted(q, relations) && WellSorted(r, relations)
    ensures KeyOf(q) == KeyOf(r) ==> q == r
    ensures q == KeyOf(r) ==> q == r
  {
    hide AllTerms, EvalTerms, Extended;
    ExtendedPrefix(q.values);
    ExtendedPrefix(r.values);
    if q == KeyOf(r) {
      assert |q.values| == |r.values|;
    }
  }

  // ---------- the interface ----------

  class Interface {
    const relations: seq<seq<Sort>>
    const numbering: Numbering
    var table: map<Point, nat>    // the number of each data point, by the key of its point
    var data: seq<Datum>
    var labels: seq<Label>
    var indexes: seq<Indexes>
    ghost var points: seq<Point>
    ghost var given: seq<Counterexample>

    /** The data point of a point of a relation. */
    ghost predicate Represents(d: Datum, q: Point)
      requires Numbers(numbering, relations)
    {
      && WellSorted(q, relations) && d.categories == [q.relation]
      && IsVector(d.ints, numbering, relations, q.relation, q.values)
    }

    ghost predicate Encoded(p: nat)
      reads this`data, this`points
      requires Numbers(numbering, relations)
    {
      p < |data| && p < |points| && Represents(data[p], points[p])
    }

    /** Data points and points of the relations are in one-to-one correspondence. */
    ghost predicate ValidTable()
      reads this
    {
      && Numbers(numbering, relations) && |data| == |labels| == |points|
      && (forall p :: 0 <= p < |points| ==> Encoded(p))
      && (forall p :: 0 <= p < |points| ==> KeyOf(points[p]) in table && table[KeyOf(points[p])] == p)
      && (forall k :: k in table ==> table[k] < |points| && k == KeyOf(points[table[k]]))
    }

    ghost predicate InRange(h: Indexes, n: nat) {
      (forall p :: p in h.premises ==> p < n) && (forall p :: p in h.conclusions ==> p < n) && |h.conclusions| <= 1
    }

    /** The sample means what the counterexamples given so far mean. */
    ghost predicate Valid()
      reads this
    {
      && ValidTable()
      && (forall k :: 0 <= k < |indexes| ==> InRange(indexes[k], |points|))
      && (forall I: Point -> bool :: SampleHolds(I, points, labels, indexes) <==> FulfilsAll(I, given))
    }

    constructor (relations: seq<seq<Sort>>, numbering: Numbering)
      requires Numbers(numbering, relations)
      ensures Valid() && this.relations == relations && this.numbering == numbering && given == []
    {
      this.relations, this.numbering := relations, numbering;
      table, data, labels, indexes, points, given := map[], [], [], [], [], [];
    }

    /** What looking up a point does to the sample. */
    twostate predicate LookedUp(q: Point, p: nat)
      reads this
    {
      && p < |points| && points[p] == q
      && indexes == old(indexes) && given == old(given)
      && (if q in old(points) then points == old(points) && labels == old(labels)
          else points == old(points) + [q] && labels == old(labels) + [Unclassified])
    }

    /** The data point for a point of a relation, which is created if there is none. */
    method GetUniqueDatapoint(relation: nat, point: TeacherPoint) returns (p: nat)
      requires ValidTable() && WellSorted(Point(relation, point.values), relations)
      modifies this`table, this`data, this`labels, this`points, point
      ensures ValidTable()
      ensures LookedUp(Point(relation, old(point.values)), p)
    {
      hide AllTerms, EvalTerms, IsVector, Numbers;
      ghost var q := Point(relation, point.values);
      KeysDetermine(q);
      Room(q);
      var key := Point(relation, point.values);
      if key !in table {
        var ints := point.GetIntData(numbering.first[relation], |numbering.attributes|);
        key := Point(relation, point.values);
        assert key == KeyOf(q);
        if key !in table {
          NewVector(q, ints);
          AddDatapoint(key, Datum([relation], ints), q);
        }
      }
      p := table[key];
    }

    method AddDatapoint(key: Point, d: Datum, ghost q: Point)
      requires ValidTable() && key == KeyOf(q) && key !in table && Represents(d, q)
      modifies this`table, this`data, this`labels, this`points
      ensures ValidTable() && key in table && table[key] == |old(points)|
      ensures points == old(points) + [q] && labels == old(labels) + [Unclassified]
    {
      hide Represents, Numbers, KeyOf;
      ghost var before := points;
      table := table[key := |data|];
      data := data + [d];
      labels := labels + [Unclassified];
      points := points + [q];
      forall r | 0 <= r < |points| ensures Encoded(r) {
        if r < |before| { assert old(Encoded(r)); }
      }
    }

    lemma KeysDetermine(q: Point)
      requires ValidTable() && WellSorted(q, relations)
      ensures q in table ==> points[table[q]] == q
      ensures KeyOf(q) in table ==> points[table[KeyOf(q)]] == q
      ensures q in points <==> KeyOf(q) in table
      ensures q in table ==> q in points
    {
      hide AllTerms, EvalTerms, IsVector, Numbers, KeyOf;
      forall p | 0 <= p < |points| ensures KeyOf(q) == KeyOf(points[p]) ==> q == points[p]
        ensures q == KeyOf(points[p]) ==> q == points[p]
      {
        assert Encoded(p);
        KeysAgree(q, points[p], relations);
      }
    }

    /** There is room for the attributes of the relation. */
    lemma Room(q: Point)
      requires Numbers(numbering, relations) && WellSorted(q, relations)
      ensures q.values != [] && |numbering.first| == |relations|
      ensures numbering.first[q.relation] + |AllTerms(SortsOf(q.values))| <= |numbering.attributes|
    {
      NoTerms(SortsOf(q.values));
      hide AllTerms;
    }

    lemma NoTerms(sorts: seq<Sort>)
      ensures sorts == [] ==> AllTerms(sorts) == []
    {
    }

    lemma NewVector(q: Point, ints: seq<int>)
      requires Numbers(numbering, relations) && WellSorted(q, relations)
      requires |ints| == |numbering.attributes|
      requires var terms, base := AllTerms(SortsOf(q.values)), numbering.first[q.relation];
               forall k :: 0 <= k < |ints| ==> ints[k] == if base <= k < base + |terms|
                   then ToInt(EvalTerm(terms[k - base], q.values)) else 0
      ensures IsVector(ints, numbering, relations, q.relation, q.values)
    {
    }

    /** A further point, without a label, adds nothing to what the sample means. */
    lemma PointKeeps(before: seq<Point>, q: Point, classified: seq<Label>)
      requires ValidTable() && |before| == |classified|
      requires (points == before && labels == classified) ||
                 (points == before + [q] && labels == classified + [Unclassified])
      requires forall k :: 0 <= k < |indexes| ==> InRange(indexes[k], |before|)
      requires forall I: Point -> bool :: SampleHolds(I, before, classified, indexes) <==> FulfilsAll(I, given)
      ensures Valid() && before <= points
    {
      hide Numbers, IsVector, AllTerms;
      forall I: Point -> bool ensures SampleHolds(I, points, labels, indexes) <==> FulfilsAll(I, given) {
        assert SampleHolds(I, before, classified, indexes) <==> FulfilsAll(I, given);
        MorePoints(I, before, classified, indexes, points, labels);
      }
    }

    method LookUp(q: Point) returns (p: nat)
      requires Valid() && WellSorted(q, relations)
      modifies this`table, this`data, this`labels, this`points
      ensures Valid() && LookedUp(q, p)
      ensures old(points) <= points
    {
      hide Numbers, IsVector, AllTerms;
      ghost var before, classified := points, labels;
      var point := new TeacherPoint(q.values);
      p := GetUniqueDatapoint(q.relation, point);
      PointKeeps(before, q, classified);
    }

    // ---------- adding counterexamples ----------

    /** What adding a counterexample does: the sample means one more of them, unless that has no interpretation. */
    twostate predicate AddedTo(ce: Counterexample, status: Status)
      reads this
    {
      && given == old(given) + (if status.Added? then [ce] else [])
      && (status.Contradicting? ==> forall I: Point -> bool :: FulfilsAll(I, given) ==> !Fulfils(I, ce))
    }

    ghost predicate HasLabel(q: Point, value: bool)
      reads this`points, this`labels
    {
      exists p :: 0 <= p < |points| && p < |labels| && points[p] == q && labels[p] == Classified(value)
    }

    /** A counterexample that is a single point: a positive or a negative one. */
    method AddClassified(q: Point, value: bool, ghost ce: Counterexample) returns (status: Status)
      requires Valid() && WellSorted(q, relations)
      requires ce == if value then Counterexample([], [q]) else Counterexample([q], [])
      modifies this
      ensures Valid() && AddedTo(ce, status) && !status.Malformed?
      ensures status.Contradicting? <==> old(HasLabel(q, !value))
      ensures status.Added? ==> HasLabel(q, value) && indexes == old(indexes)
    {
      hide Numbers, IsVector, AllTerms, Fulfils, KeyOf, Represents;
      ghost var known, classified := points, labels;
      PointsDiffer();
      var p := LookUp(q);
      assert labels[p].Classified? ==> p < |classified| && known[p] == q && classified[p] == labels[p];
      forall r | 0 <= r < |known| && known[r] == q ensures r == p { assert known[r] in known; }
      SingleMeans(q, value, ce);
      ghost var before := labels;
      if labels[p].Classified? {
        if labels[p].value != value {
          forall I: Point -> bool | FulfilsAll(I, given) ensures !Fulfils(I, ce) {
            assert SampleHolds(I, points, labels, indexes);
          }
          return Contradicting;
        }
      } else {
        labels := labels[p := Classified(value)];
      }
      forall I: Point -> bool ensures SampleHolds(I, points, labels, indexes) <==> FulfilsAll(I, given + [ce]) {
        assert SampleHolds(I, points, before, indexes) <==> FulfilsAll(I, given);
        ClassifiedMeans(I, points, before, indexes, p, value);
        OneMore(I, given, ce);
      }
      given := given + [ce];
      status := Added;
    }

    /** The numbers stand for the points. */
    ghost predicate Stand(numbers: set<nat>, qs: seq<Point>, points: seq<Point>) {
      && (forall p :: p in numbers ==> p < |points| && points[p] in qs)
      && (forall q :: q in qs ==> exists p :: p in numbers && p < |points| && points[p] == q)
    }

    lemma StandMore(numbers: set<nat>, qs: seq<Point>, points: seq<Point>, p: nat, q: Point, points': seq<Point>)
      requires Stand(numbers, qs, points) && points <= points' && p < |points'| && points'[p] == q
      ensures Stand(numbers + {p}, qs + [q], points')
    {
      forall r | r in qs + [q] ensures exists n :: n in numbers + {p} && n < |points'| && points'[n] == r {
        if r != q {
          var n :| n in numbers && n < |points| && points[n] == r;
          assert n in numbers + {p} && points'[n] == r;
        } else {
          assert p in numbers + {p};
        }
      }
    }

    lemma StandStill(numbers: set<nat>, qs: seq<Point>, points: seq<Point>, points': seq<Point>)
      requires Stand(numbers, qs, points) && points <= points'
      ensures Stand(numbers, qs, points')
    {
      forall q | q in qs ensures exists n :: n in numbers && n < |points'| && points'[n] == q {
        var n :| n in numbers && n < |points| && points[n] == q;
        assert points'[n] == q;
      }
    }

    lemma IndexMeans(premises: set<nat>, conclusions: set<nat>, ce: Counterexample, I: Point -> bool,
                     points: seq<Point>)
      requires Stand(premises, ce.lhs, points) && Stand(conclusions, ce.rhs, points)
      ensures IndexHolds(I, points, Indexes(premises, conclusions)) <==> Fulfils(I, ce)
    {
    }

    /** A counterexample with premises becomes a constraint. */
    method AddHorn(ce: Counterexample)
      requires Valid() && |ce.rhs| <= 1 && forall q :: q in ce.lhs + ce.rhs ==> WellSorted(q, relations)
      modifies this
      ensures Valid() && AddedTo(ce, Added)
      ensures old(labels) <= labels && forall r :: |old(labels)| <= r < |labels| ==> labels[r] == Unclassified
      ensures exists h :: indexes == old(indexes) + [h] && Stand(h.premises, ce.lhs, points) &&
                Stand(h.conclusions, ce.rhs, points)
    {
      hide Numbers, IsVector, AllTerms, Fulfils, Stand, ValidTable, SampleHolds, InRange;
      var conclusions: set<nat> := {};
      StandNone(points);
      if |ce.rhs| == 1 {
        var p := LookUp(ce.rhs[0]);
        StandNone(points);
        StandMore({}, [], points, p, ce.rhs[0], points);
        conclusions := {} + {p};
        assert [] + [ce.rhs[0]] == ce.rhs;
      }
      var premises: set<nat> := {};
      StandNone(points);
      var k := 0;
      while k < |ce.lhs|
        invariant 0 <= k <= |ce.lhs| && Valid() && given == old(given) && indexes == old(indexes)
        invariant old(labels) <= labels && forall r :: |old(labels)| <= r < |labels| ==> labels[r] == Unclassified
        invariant Stand(conclusions, ce.rhs, points) && Stand(premises, ce.lhs[..k], points) && |conclusions| <= 1
      {
        assert ce.lhs[k] in ce.lhs + ce.rhs;
        ghost var before := points;
        var p := LookUp(ce.lhs[k]);
        StandStill(conclusions, ce.rhs, before, points);
        StandMore(premises, ce.lhs[..k], before, p, ce.lhs[k], points);
        assert ce.lhs[..k] + [ce.lhs[k]] == ce.lhs[..k + 1];
        premises := premises + {p};
        k := k + 1;
      }
      assert ce.lhs[..k] == ce.lhs;
      AddConstraint(Indexes(premises, conclusions), ce);
    }

    lemma StandNone(points: seq<Point>)
      ensures Stand({}, [], points)
    {
    }

    method AddConstraint(h: Indexes, ghost ce: Counterexample)
      requires Valid() && Stand(h.premises, ce.lhs, points) && Stand(h.conclusions, ce.rhs, points) &&
                 |h.conclusions| <= 1
      modifies this`indexes, this`given
      ensures Valid() && given == old(given) + [ce] && indexes == old(indexes) + [h]
    {
      hide Numbers, IsVector, AllTerms, Fulfils, Encoded;
      forall I: Point -> bool ensures SampleHolds(I, points, labels, indexes + [h]) <==> FulfilsAll(I, given + [ce]) {
        assert SampleHolds(I, points, labels, indexes) <==> FulfilsAll(I, given);
        IndexMeans(h.premises, h.conclusions, ce, I, points);
        OneMore(I, given, ce);
        OneMoreIndex(I, points, labels, indexes, h);
      }
      assert InRange(h, |points|);
      indexes := indexes + [h];
      given := given + [ce];
    }

    /**
     Adds a counterexample: the sample then means this one as well.  A single point that already has the
     opposite label is refused, rightly so, because no interpretation fulfils all counterexamples then.
     */
    method AddCounterexample(ce: Counterexample) returns (status: Status)
      requires Valid() && forall q :: q in ce.lhs + ce.rhs ==> WellSorted(q, relations)
      modifies this
      ensures Valid() && AddedTo(ce, status)
      ensures status.Malformed? <==> |ce.rhs| > 1 || (ce.lhs == [] && ce.rhs == [])
      ensures status.Contradicting? <==>
                (ce.lhs == [] && |ce.rhs| == 1 && old(HasLabel(ce.rhs[0], false))) ||
                (|ce.lhs| == 1 && ce.rhs == [] && old(HasLabel(ce.lhs[0], true)))
    {
      hide Valid, WellSorted, AddedTo, HasLabel;
      if |ce.lhs| == 0 && |ce.rhs| == 1 {
        assert ce.rhs == [ce.rhs[0]] && ce.rhs[0] in ce.lhs + ce.rhs;
        status := AddClassified(ce.rhs[0], true, ce);
      } else if |ce.lhs| == 1 && |ce.rhs| == 0 {
        assert ce.lhs == [ce.lhs[0]] && ce.lhs[0] in ce.lhs + ce.rhs;
        status := AddClassified(ce.lhs[0], false, ce);
      } else if |ce.lhs| > 0 && |ce.rhs| <= 1 {
        AddHorn(ce);
        status := Added;
      } else {
        MalformedAddsNothing(ce);
        status := Malformed;
      }
    }

    twostate lemma MalformedAddsNothing(ce: Counterexample)
      requires given == old(given)
      ensures AddedTo(ce, Malformed)
    {
    }

    // ---------- conjectures ----------

    /** Data points are pairwise distinct, because their points are. */
    lemma DistinctPoints()
      requires ValidTable()
      ensures DistinctData(data)
    {
      hide Numbers, IsVector, AllTerms, KeyOf;
      forall p, q | 0 <= p < q < |data| ensures data[p] != data[q] {
        assert Encoded(p) && Encoded(q);
        if data[p] == data[q] {
          assert data[p].categories[0] == data[q].categories[0];
          VectorsDiffer(numbering, relations, points[p].relation, points[p].values, points[q].values, data[p].ints);
        }
      }
    }

    ghost function Meta(): Metadata {
      Metadata([|relations|], |numbering.attributes|)
    }

    lemma TaskValid(hs: seq<Constraint>)
      requires ValidTable() && AllWellFormed(hs, |data|)
      ensures |numbering.first| == |numbering.last| == |relations|
      ensures ValidTask(Task(data, Meta(), hs)) && BlockData(data, Blocks(numbering))
      ensures forall f :: 0 <= f < |relations| ==>
                Blocks(numbering)[f].first <= Blocks(numbering)[f].last < |numbering.attributes|
    {
      hide AllTerms, KeyOf, IsVector, Block;
      var blocks := Blocks(numbering);
      forall p | 0 <= p < |data|
        ensures ValidDatum(data[p], Meta()) && data[p].categories[0] < |blocks|
        ensures var block := blocks[data[p].categories[0]];
                forall a :: 0 <= a < |data[p].ints| && !(block.first <= a <= block.last) ==> data[p].ints[a] == 0
      {
        PointInBlock(p);
      }
      forall f | 0 <= f < |relations| ensures blocks[f].first <= blocks[f].last < |numbering.attributes| {
        BlockBounds(f);
      }
    }

    lemma BlockBounds(f: nat)
      requires Numbers(numbering, relations) && f < |relations|
      ensures numbering.first[f] <= numbering.last[f] < |numbering.attributes|
    {
      hide AllTerms;
      assert Block(numbering, f, relations[f]);
    }

    /** A data point is zero outside the block of its relation. */
    lemma PointInBlock(p: nat)
      requires ValidTable() && p < |data|
      ensures data[p].categories == [points[p].relation] && points[p].relation < |relations|
      ensures |data[p].ints| == |numbering.attributes|
      ensures forall a ::
                0 <= a < |data[p].ints| &&
                !(numbering.first[points[p].relation] <= a <= numbering.last[points[p].relation]) ==>
                  data[p].ints[a] == 0
    {
      hide AllTerms, KeyOf;
      assert Encoded(p);
      var f := points[p].relation;
      assert Block(numbering, f, relations[f]);
    }

    /** The data points whose points the interpretation makes true. */
    ghost function IndexSet(I: Point -> bool): set<nat>
      reads this`points
    {
      set p | 0 <= p < |points| && I(points[p])
    }

    /** Models of the sample are the interpretations that fulfil the counterexamples. */
    lemma ModelMeans(I: Point -> bool, hs: seq<Constraint>)
      requires ValidTable() && |hs| == |indexes|
      requires forall k :: 0 <= k < |indexes| ==> InRange(indexes[k], |points|) && Renders(hs[k], indexes[k])
      ensures Model(IndexSet(I), labels, hs) <==> SampleHolds(I, points, labels, indexes)
    {
      hide AllTerms, KeyOf, Numbers, IsVector, Encoded;
      var S := IndexSet(I);
      if Agrees(S, labels) {
        forall p | 0 <= p < |labels| && labels[p].Classified? ensures I(points[p]) <==> labels[p].value {
          assert LabelOf(labels, p) == labels[p];
        }
      }
      forall k | 0 <= k < |indexes| ensures Satisfies(S, hs[k]) <==> IndexHolds(I, points, indexes[k]) {
        ConstraintMeans(I, hs[k], indexes[k]);
      }
      if Model(S, labels, hs) {
        forall k | 0 <= k < |indexes| ensures IndexHolds(I, points, indexes[k]) { assert Satisfies(S, hs[k]); }
      }
    }

    lemma ConstraintMeans(I: Point -> bool, c: Constraint, h: Indexes)
      requires InRange(h, |points|) && Renders(c, h)
      ensures Satisfies(IndexSet(I), c) <==> IndexHolds(I, points, h)
    {
      if h.conclusions != {} {
        var m := Smallest(h.conclusions);
        assert h.conclusions == {m} by { OnlyOne(h.conclusions, m); }
      }
    }

    lemma OnlyOne(s: set<nat>, m: nat)
      requires m in s && |s| <= 1
      ensures s == {m}
    {
      assert |s - {m}| == 0;
    }

    /** Every model is one of those. */
    lemma ModelReads(S: set<nat>, hs: seq<Constraint>)
      requires ValidTable() && Model(S, labels, hs)
      ensures IndexSet(Among(S, points)) == S
    {
      hide AllTerms, KeyOf, Numbers, IsVector, Encoded;
      var I := Among(S, points);
      forall p | p in S ensures p < |points| {
        assert LabelOf(labels, p).Classified? ==> LabelOf(labels, p).value;
      }
      forall p | p in IndexSet(I) ensures p in S {
        assert I(points[p]);
        var r :| r in S && r < |points| && points[r] == points[p];
        assert table[KeyOf(points[r])] == r && table[KeyOf(points[p])] == p;
      }
    }

    /** The sample has a model exactly if some interpretation fulfils all counterexamples. */
    lemma SatisfiableMeans(hs: seq<Constraint>)
      requires Valid() && |hs| == |indexes| && forall k :: 0 <= k < |indexes| ==> Renders(hs[k], indexes[k])
      ensures Satisfiable(labels, hs) <==> exists I: Point -> bool :: FulfilsAll(I, given)
    {
      hide AllTerms, KeyOf, Numbers, IsVector, Encoded;
      if Satisfiable(labels, hs) {
        var S :| Model(S, labels, hs);
        ModelReads(S, hs);
        ModelMeans(Among(S, points), hs);
        assert FulfilsAll(Among(S, points), given);
      }
      if I: Point -> bool :| FulfilsAll(I, given) {
        ModelMeans(I, hs);
        assert Model(IndexSet(I), labels, hs);
      }
    }

    /** Boolean attributes have the values 1 and -1, and 0 for points of other relations. */
    lemma TruthValues(a: nat, p: nat)
      requires ValidTable() && a < |numbering.attributes| && IsBool(numbering.attributes[a], relations) && p < |data|
      ensures IntOf(data, a, p) <= 1
    {
      hide AllTerms, KeyOf;
      assert Encoded(p);
      PointInBlock(p);
      var f := points[p].relation;
      OwnerOf(numbering, relations, a, |relations|);
      if numbering.first[f] <= a <= numbering.last[f] {
        assert Block(numbering, f, relations[f]);
        var k := a - numbering.first[f];
        assert numbering.attributes[numbering.first[f] + k] == Attribute(f, AllTerms(relations[f])[k]);
        var i := numbering.attributes[a].term.i;
        assert SortsOf(points[p].values)[i] == BoolSort;
      }
    }

    ghost predicate Read(tree: Node, conjectures: seq<Formula>, hs: seq<Constraint>)
      reads this
    {
      && ValidTable() && AllWellFormed(hs, |data|)
      && ValidTask(Task(data, Meta(), hs)) && Solves(tree, Task(data, Meta(), hs), labels)
      && InBlocks(tree, Blocks(numbering)) && TruthCuts(tree, numbering.attributes, relations)
      && ConjecturesOf(conjectures, tree, relations, numbering.attributes)
    }

    /**
     A point of the sample is true in the conjectures exactly if the tree makes it true and every Boolean
     attribute tested on the way is true.
     */
    lemma ReadingMeans(tree: Node, conjectures: seq<Formula>, hs: seq<Constraint>, p: nat)
      requires Read(tree, conjectures, hs) && p < |points|
      ensures Reading(conjectures)(points[p]) <==>
                p in TruePoints(tree, data, Meta()) && PassesTruths(tree, data[p], numbering.attributes, relations)
      ensures points[p].relation < |relations|
      ensures IntSorted(relations[points[p].relation]) ==> PassesTruths(tree, data[p], numbering.attributes, relations)
    {
      hide AllTerms, KeyOf, Numbers, IsVector;
      assert Encoded(p) && ValidDatum(data[p], Meta());
      var f := points[p].relation;
      assert data[p] == Datum([f], data[p].ints);
      VectorEncodes(numbering, relations, f, points[p].values, data[p].ints);
      ConjecturesMean(tree, conjectures, numbering, relations, f, points[p].values, data[p], Meta());
    }

    ghost predicate IntegerRelations() {
      forall f :: 0 <= f < |relations| ==> IntSorted(relations[f])
    }

    /** The conjectures, with all points of the sample that the tree makes true added. */
    ghost function TreeReading(tree: Node, conjectures: seq<Formula>): Point -> bool
      reads this
      requires ValidData(data, Meta()) && ValidNode(tree, Meta())
    {
      var known, accepted := points, set p | p in TruePoints(tree, data, Meta()) && p < |points| :: points[p];
      (q: Point) => if q in known then q in accepted else Reading(conjectures)(q)
    }

    /** The reading of the tree fulfils all counterexamples, and the conjectures are never true beyond it. */
    lemma TreeFulfils(tree: Node, conjectures: seq<Formula>, hs: seq<Constraint>)
      requires Valid() && Read(tree, conjectures, hs) && |hs| == |indexes|
      requires forall k :: 0 <= k < |indexes| ==> Renders(hs[k], indexes[k])
      ensures FulfilsAll(TreeReading(tree, conjectures), given)
      ensures forall q :: Reading(conjectures)(q) ==> TreeReading(tree, conjectures)(q)
      ensures IntegerRelations() ==> forall q :: TreeReading(tree, conjectures)(q) ==> Reading(conjectures)(q)
    {
      hide AllTerms, KeyOf, Numbers, IsVector, PassesTruths, ConjecturesOf, InBlocks, Reading;
      var I := TreeReading(tree, conjectures);
      forall p | 0 <= p < |points|
        ensures I(points[p]) <==> p in TruePoints(tree, data, Meta())
        ensures Reading(conjectures)(points[p]) ==> I(points[p])
        ensures IntegerRelations() && I(points[p]) ==> Reading(conjectures)(points[p])
      {
        PointsDiffer();
        ReadingMeans(tree, conjectures, hs, p);
        assert Encoded(p);
      }
      assert IndexSet(I) == TruePoints(tree, data, Meta());
      ModelMeans(I, hs);
    }

    lemma PointsDiffer()
      requires ValidTable()
      ensures forall p, q :: 0 <= p < q < |points| ==> points[p] != points[q]
    {
      hide Encoded, Numbers, KeyOf;
      assert forall p :: 0 <= p < |points| ==> table[KeyOf(points[p])] == p;
    }

    /** The conjectures are read off a tree that the driver may return for the sample. */
    ghost predicate MayAnswer(prephase: bool, useBounds: bool, r: Option<seq<Formula>>)
      reads this
      requires ValidTable()
    {
      exists hs, outcome :: AnswerFrom(prephase, useBounds, r, hs, outcome)
    }

    ghost predicate AnswerFrom(prephase: bool, useBounds: bool, r: Option<seq<Formula>>, hs: seq<Constraint>,
                               outcome: Outcome)
      reads this
      requires ValidTable()
    {
      && |hs| == |indexes| && (forall k :: 0 <= k < |hs| ==> Renders(hs[k], indexes[k]))
      && ValidTask(Task(data, Meta(), hs))
      && DriverResult(Task(data, Meta(), hs), labels, Blocks(numbering), prephase, 1, useBounds, outcome)
      && if outcome.LearntTree? then
           r.Some? && ConjecturesOf(r.value, outcome.tree, relations, numbering.attributes)
         else r.None?
    }

    /**
     Conjectures for all relations.  There are some exactly if the counterexamples do not contradict
     each other.  For relations over integers they fulfil every counterexample added so far; in any
     case they fulfil all those without a conclusion, which the lost Boolean tests cannot harm.
     */
    method GetConjectures(prephase: bool, useBounds: bool) returns (r: Option<seq<Formula>>)
      requires Valid()
      ensures r.Some? <==> exists I: Point -> bool :: FulfilsAll(I, given)
      ensures r.Some? ==> |r.value| == |relations|
      ensures MayAnswer(prephase, useBounds, r)
      ensures r.Some? && IntegerRelations() ==> FulfilsAll(Reading(r.value), given)
      ensures r.Some? ==> forall ce :: ce in given && ce.rhs == [] ==> Fulfils(Reading(r.value), ce)
    {
      hide AllTerms, KeyOf, Numbers, IsVector, Encoded, Solves, ConjecturesOf, SampleHolds, FulfilsAll, Read,
        TreeReading, DriverResult, ConjecturesOf, BoundSuffices;
      assert forall k :: 0 <= k < |indexes| ==> InRange(indexes[k], |data|) && IndexInRange(indexes[k], |data|);
      var rendered := IndexesToConstraints(indexes, |data|);
      var hs := rendered.value;
      var t := Task(data, Metadata([|relations|], |numbering.attributes|), hs);
      TaskValid(hs);
      DistinctPoints();
      SatisfiableMeans(hs);
      var outcome := LearnDecisionTree(t, labels, Blocks(numbering), prephase, 1, useBounds);
      if !outcome.LearntTree? {
        assert AnswerFrom(prephase, useBounds, None, hs, outcome);
        return None;
      }
      var tree := outcome.tree;
      TruthCutsLearnt(tree);
      ChildrenTranslate(tree);
      var conjectures := Translation.GetConjectures(tree, relations, numbering.attributes);
      r := Some(conjectures);
      assert AnswerFrom(prephase, useBounds, r, hs, outcome);
      ReadFrom(tree, conjectures, hs);
      TreeFulfils(tree, conjectures, hs);
      ReadingFulfils(TreeReading(tree, conjectures), Reading(conjectures), given);
    }

    lemma TruthCutsLearnt(tree: Node)
      requires ValidTable()
      requires forall a, limit :: limit >= 1 && (forall p :: 0 <= p < |data| ==> IntOf(data, a, p) <= limit) ==>
                 CutsAtMost(tree, a, limit)
      ensures TruthCuts(tree, numbering.attributes, relations)
    {
      hide CutsAtMost, IsBool;
      forall a | 0 <= a < |numbering.attributes| && IsBool(numbering.attributes[a], relations)
        ensures CutsAtMost(tree, a, 1)
      {
        forall p | 0 <= p < |data| ensures IntOf(data, a, p) <= 1 {
          TruthValues(a, p);
        }
      }
    }

    lemma ReadFrom(tree: Node, conjectures: seq<Formula>, hs: seq<Constraint>)
      requires ValidTable() && AllWellFormed(hs, |data|)
      requires ValidTask(Task(data, Meta(), hs)) && Solves(tree, Task(data, Meta(), hs), labels)
      requires InBlocks(tree, Blocks(numbering)) && TruthCuts(tree, numbering.attributes, relations)
      requires ConjecturesOf(conjectures, tree, relations, numbering.attributes)
      ensures Read(tree, conjectures, hs)
    {
    }

    lemma ChildrenTranslate(tree: Node)
      requires Numbers(numbering, relations) && InBlocks(tree, Blocks(numbering))
      ensures tree.CategoricalNode? ==> |tree.children| == |relations| && Translatable(tree, |numbering.attributes|)
    {
      hide AllTerms;
      if tree.CategoricalNode? {
        forall f | 0 <= f < |tree.children| && !tree.children[f].Hole?
          ensures AttributesBelow(tree.children[f], |numbering.attributes|)
        {
          BlockTests(tree.children[f], numbering, relations, f);
        }
      }
    }
  }

  lemma OneMoreIndex(I: Point -> bool, points: seq<Point>, labels: seq<Label>, indexes: seq<Indexes>, h: Indexes)
    ensures SampleHolds(I, points, labels, indexes + [h]) <==>
              SampleHolds(I, points, labels, indexes) && IndexHolds(I, points, h)
  {
    var more := indexes + [h];
    assert more[|indexes|] == h && forall k :: 0 <= k < |indexes| ==> more[k] == indexes[k];
  }

  /** Sets the interface up; a relation without arguments is refused. */
  method Start(relations: seq<seq<Sort>>) returns (r: Option<Interface>)
    ensures r.None? <==> [] in relations
    ensures r.Some? ==> fresh(r.value) && r.value.Valid() && r.value.relations == relations && r.value.given == []
  {
    var numbering := NumberAttributes(relations);
    if numbering.None? {
      return None;
    }
    var interface := new Interface(relations, numbering.value);
    r := Some(interface);
  }

  lemma ClassifiedMeans(I: Point -> bool, points: seq<Point>, labels: seq<Label>, indexes: seq<Indexes>, p: nat,
                        value: bool)
    requires p < |points| == |labels| && (labels[p].Unclassified? || labels[p] == Classified(value))
    ensures SampleHolds(I, points, labels[p := Classified(value)], indexes) <==>
              SampleHolds(I, points, labels, indexes) && (I(points[p]) <==> value)
  {
    var after := labels[p := Classified(value)];
    assert forall r :: 0 <= r < |labels| && r != p ==> after[r] == labels[r];
    if LabelsHold(I, points, after) {
      assert after[p].Classified?;
      forall r | 0 <= r < |labels| && labels[r].Classified?
        ensures I(points[r]) <==> labels[r].value { assert after[r] == labels[r]; }
    }
  }

  /** What a larger interpretation says about a smaller one. */
  lemma ReadingFulfils(I: Point -> bool, J: Point -> bool, given: seq<Counterexample>)
    requires FulfilsAll(I, given) && forall q :: J(q) ==> I(q)
    ensures forall ce :: ce in given && ce.rhs == [] ==> Fulfils(J, ce)
    ensures (forall q :: I(q) ==> J(q)) ==> FulfilsAll(J, given)
  {
    assert forall ce :: ce in given ==> Fulfils(I, ce);
  }

  lemma OneMore(I: Point -> bool, given: seq<Counterexample>, ce: Counterexample)
    ensures FulfilsAll(I, given + [ce]) <==> FulfilsAll(I, given) && Fulfils(I, ce)
  {
    assert forall c :: c in given + [ce] <==> c in given || c == ce;
  }

  /** The counterexample of a single point. */
  lemma SingleMeans(q: Point, value: bool, ce: Counterexample)
    requires ce == if value then Counterexample([], [q]) else Counterexample([q], [])
    ensures forall I: Point -> bool :: Fulfils(I, ce) <==> (I(q) <==> value)
  {
    forall I: Point -> bool ensures Fulfils(I, ce) <==> (I(q) <==> value) {
      assert q in [q];
    }
  }


  /** Constraints over the first points do not notice further ones. */
  lemma MorePoints(I: Point -> bool, points: seq<Point>, labels: seq<Label>, indexes: seq<Indexes>, points': seq<Point>,
                   labels': seq<Label>)
    requires |points| == |labels|
    requires (points' == points && labels' == labels) ||
             exists q :: points' == points + [q] && labels' == labels + [Unclassified]
    requires forall k, p :: 0 <= k < |indexes| && (p in indexes[k].premises || p in indexes[k].conclusions) ==>
               p < |points|
    ensures SampleHolds(I, points', labels', indexes) <==> SampleHolds(I, points, labels, indexes)
  {
    assert forall k :: 0 <= k < |indexes| ==>
        (IndexHolds(I, points', indexes[k]) <==> IndexHolds(I, points, indexes[k]));
    assert |points'| == |labels'| && forall p :: 0 <= p < |labels| ==>
        points'[p] == points[p] && labels'[p] == labels[p];
    assert forall p :: |labels| <= p < |labels'| ==> labels'[p].Unclassified?;
    if LabelsHold(I, points', labels') {
      forall p | 0 <= p < |labels| && labels[p].Classified? ensures I(points[p]) <==> labels[p].value {
        assert labels'[p].Classified?;
      }
    }
  }
}
