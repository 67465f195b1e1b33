/**
 How the teacher's predicates become attributes of the learner: the numbering of the attributes, and
 the attribute vector of a data point.
 */
module Encoding {
  import opened Horn

  datatype Sort = IntSort | BoolSort

  datatype Value = IntValue(int_: int) | BoolValue(bool_: bool)

  /** An attribute of a relation: one of its arguments, or the sum or difference of two of them. */
  datatype Term = Argument(i: nat) | Sum(i: nat, j: nat) | Difference(i: nat, j: nat)

  function SortOf(v: Value): Sort {
    if v.IntValue? then IntSort else BoolSort
  }

  function SortsOf(values: seq<Value>): (sorts: seq<Sort>)
    ensures |sorts| == |values| && forall i :: 0 <= i < |sorts| ==> sorts[i] == SortOf(values[i])
  {
    seq(|values|, i requires 0 <= i < |values| => SortOf(values[i]))
  }

  /** The library's truth values are 1 and -1. */
  function ToInt(v: Value): int {
    match v
    case IntValue(n) => n
    case BoolValue(b) => if b then 1 else -1
  }

  predicate FitsArity(term: Term, sorts: seq<Sort>) {
    match term
    case Argument(i) => i < |sorts|
    case Sum(i, j) => i < |sorts| && j < |sorts| && sorts[i] == IntSort && sorts[j] == IntSort
    case Difference(i, j) => i < |sorts| && j < |sorts| && sorts[i] == IntSort && sorts[j] == IntSort
  }

  function EvalTerm(term: Term, values: seq<Value>): Value
    requires FitsArity(term, SortsOf(values))
  {
    match term
    case Argument(i) => values[i]
    case Sum(i, j) => IntValue(values[i].int_ + values[j].int_)
    case Difference(i, j) => IntValue(values[i].int_ - values[j].int_)
  }

  lemma Associative<T>(a: seq<T>, b: seq<T>, c: seq<T>)
    ensures a + (b + c) == (a + b) + c
  {
  }

  // ---------- the attributes of one relation ----------

  /** The sums and differences of the integer pairs from (`i`, `j`) on, row by row. */
  function PairTerms(sorts: seq<Sort>, i: nat, j: nat): (terms: seq<Term>)
    requires i <= |sorts| && j <= |sorts|
    ensures forall k :: 0 <= k < |terms| ==> FitsArity(terms[k], sorts)
    decreases |sorts| - i, |sorts| - j
  {
    if i == |sorts| then []
    else if j >= |sorts| then PairTerms(sorts, i + 1, if i + 2 <= |sorts| then i + 2 else |sorts|)
    else if sorts[i] == IntSort && sorts[j] == IntSort then [Sum(i, j), Difference(i, j)] + PairTerms(sorts, i, j + 1)
    else PairTerms(sorts, i, j + 1)
  }

  function ArgumentTerms(n: nat): (terms: seq<Term>)
    ensures |terms| == n && forall i :: 0 <= i < n ==> terms[i] == Argument(i)
  {
    seq(n, i requires 0 <= i => Argument(i))
  }

  function FirstPair(sorts: seq<Sort>): nat {
    if |sorts| >= 1 then 1 else 0
  }

  /** All attributes of a relation: its arguments, then the sum and the difference of each integer pair. */
  function AllTerms(sorts: seq<Sort>): (terms: seq<Term>)
    ensures forall k :: 0 <= k < |terms| ==> FitsArity(terms[k], sorts)
    ensures |terms| >= |sorts|
  {
    ArgumentTerms(|sorts|) + PairTerms(sorts, 0, FirstPair(sorts))
  }

  /** A sum or difference of two different integers, in order, from pair (`i`, `j`) on. */
  predicate IsPair(t: Term, sorts: seq<Sort>, i: nat, j: nat) {
    !t.Argument? && t.i < t.j < |sorts| && sorts[t.i] == IntSort && sorts[t.j] == IntSort &&
      (t.i > i || (t.i == i && t.j >= j))
  }

  lemma {:induction false} PairTermsAre(sorts: seq<Sort>, i: nat, j: nat)
    requires i <= |sorts| && j <= |sorts| && (i < |sorts| ==> i < j)
    ensures forall t: Term :: multiset(PairTerms(sorts, i, j))[t] == if IsPair(t, sorts, i, j) then 1 else 0
    decreases |sorts| - i, |sorts| - j
  {
    if i < |sorts| {
      if j >= |sorts| {
        PairTermsAre(sorts, i + 1, if i + 2 <= |sorts| then i + 2 else |sorts|);
      } else {
        PairTermsAre(sorts, i, j + 1);
        OnePair(sorts, i, j, PairTerms(sorts, i, j + 1));
      }
    }
  }

  lemma OnePair(sorts: seq<Sort>, i: nat, j: nat, rest: seq<Term>)
    requires i < j < |sorts|
    requires forall t: Term :: multiset(rest)[t] == if IsPair(t, sorts, i, j + 1) then 1 else 0
    ensures var terms :=
              if sorts[i] == IntSort && sorts[j] == IntSort then [Sum(i, j), Difference(i, j)] + rest else rest;
            forall t: Term :: multiset(terms)[t] == if IsPair(t, sorts, i, j) then 1 else 0
  {
    var pair := [Sum(i, j), Difference(i, j)];
    assert multiset(pair + rest) == multiset{Sum(i, j), Difference(i, j)} + multiset(rest);
  }

  lemma {:induction false} ArgumentTermsAre(n: nat)
    ensures forall t: Term :: multiset(ArgumentTerms(n))[t] == if t.Argument? && t.i < n then 1 else 0
  {
    if n > 0 {
      ArgumentTermsAre(n - 1);
      assert ArgumentTerms(n) == ArgumentTerms(n - 1) + [Argument(n - 1)];
    }
  }

  /**
   The attributes of a relation are its arguments and the sums and differences of two different integer
   arguments, in order, each of them once.
   */
  lemma AllTermsAre(sorts: seq<Sort>)
    ensures forall t: Term :: multiset(AllTerms(sorts))[t] ==
              if (t.Argument? && t.i < |sorts|) ||
                 (!t.Argument? && t.i < t.j < |sorts| && sorts[t.i] == IntSort && sorts[t.j] == IntSort) then 1 else 0
  {
    hide PairTerms;
    ArgumentTermsAre(|sorts|);
    PairTermsAre(sorts, 0, FirstPair(sorts));
    var pairs := PairTerms(sorts, 0, FirstPair(sorts));
    assert multiset(ArgumentTerms(|sorts|) + pairs) == multiset(ArgumentTerms(|sorts|)) + multiset(pairs);
  }

  function EvalTerms(terms: seq<Term>, values: seq<Value>): (r: seq<Value>)
    requires forall k :: 0 <= k < |terms| ==> FitsArity(terms[k], SortsOf(values))
    ensures |r| == |terms| && forall k :: 0 <= k < |terms| ==> r[k] == EvalTerm(terms[k], values)
  {
    seq(|terms|, k requires 0 <= k < |terms| => EvalTerm(terms[k], values))
  }

  /** The derived values still to be appended from pair (`i`, `j`) on. */
  ghost function Rest(start: seq<Value>, i: nat, j: nat): seq<Value>
    requires i <= |start| && j <= |start|
  {
    EvalTerms(PairTerms(SortsOf(start), i, j), start)
  }

  lemma RestStep(start: seq<Value>, i: nat, j: nat)
    requires i < j < |start|
    ensures Rest(start, i, j) ==
              (if start[i].IntValue? && start[j].IntValue?
               then [IntValue(start[i].int_ + start[j].int_), IntValue(start[i].int_ - start[j].int_)] else []) +
                 Rest(start, i, j + 1)
  {
  }

  lemma RestRow(start: seq<Value>, i: nat)
    requires i < |start|
    ensures Rest(start, i, |start|) == if i + 1 < |start| then Rest(start, i + 1, i + 2) else []
  {
    var sorts := SortsOf(start);
    assert PairTerms(sorts, i, |sorts|) ==
             if i + 1 < |sorts| then PairTerms(sorts, i + 1, i + 2) else PairTerms(sorts, i + 1, |sorts|);
  }

  /** The derived values still to be appended from row `i` on. */
  ghost function Rows(start: seq<Value>, i: nat): seq<Value> {
    if i < |start| then Rest(start, i, i + 1) else []
  }

  lemma RowsStep(start: seq<Value>, i: nat, row: seq<Value>)
    requires i < |start| && row + Rest(start, i, |start|) == Rest(start, i, i + 1)
    ensures Rows(start, i) == row + Rows(start, i + 1)
  {
    hide Rest;
    RestRow(start, i);
  }

  // ---------- the attribute vector of a data point ----------

  /** A data point of the teacher; computing its attributes appends the derived values to it. */
  class TeacherPoint {
    var values: seq<Value>

    constructor (values: seq<Value>)
      ensures this.values == values
    {
      this.values := values;
    }

    /** The sums and differences of the pairs of row `i`, in the order they are appended. */
    method RowValues(start: seq<Value>, i: nat) returns (row: seq<Value>)
      requires i < |start|
      ensures row + Rest(start, i, |start|) == Rest(start, i, i + 1)
    {
      hide Rest, PairTerms, EvalTerms, SortsOf;
      row := [];
      assert row + Rest(start, i, i + 1) == Rest(start, i, i + 1);
      var j := i + 1;
      while j < |start|
        invariant i < j <= |start|
        invariant row + Rest(start, i, j) == Rest(start, i, i + 1)
      {
        RestStep(start, i, j);
        ghost var rest := Rest(start, i, j + 1);
        if start[i].IntValue? && start[j].IntValue? {
          var pair := [IntValue(start[i].int_ + start[j].int_), IntValue(start[i].int_ - start[j].int_)];
          Associative(row, pair, rest);
          row := row + pair;
        } else {
          assert [] + rest == rest;
        }
        j := j + 1;
      }
    }

    /** Appends the sum and the difference of every pair of integers among the values. */
    method AddDerivedValues()
      modifies this
      ensures values == EvalTerms(AllTerms(SortsOf(old(values))), old(values))
    {
      hide Rest, Rows, PairTerms, EvalTerms, SortsOf, FirstPair, AllTerms;
      ghost var start := values;
      AllValues(start);
      ghost var target := start + Rows(start, 0);
      var n := |values|;
      var i := 0;
      while i < n
        invariant 0 <= i <= n == |start| <= |values| && values[..n] == start
        invariant values + Rows(start, i) == target
      {
        var row := RowValues(values[..n], i);
        RowsStep(start, i, row);
        Associative(values, row, Rows(start, i + 1));
        values := values + row;
        i := i + 1;
      }
      NoRows(start);
      assert values + [] == values;
    }

    lemma NoRows(start: seq<Value>)
      ensures Rows(start, |start|) == []
    {
    }

    lemma AllValues(start: seq<Value>)
      ensures EvalTerms(AllTerms(SortsOf(start)), start) == start + Rows(start, 0)
    {
      if start != [] {
        var pairs := PairTerms(SortsOf(start), 0, 1);
        assert AllTerms(SortsOf(start)) == ArgumentTerms(|start|) + pairs;
        assert EvalTerms(ArgumentTerms(|start|) + pairs, start) == start + EvalTerms(pairs, start);
      } else {
        assert AllTerms(SortsOf(start)) == [];
      }
    }

    lemma AllTermsEmpty(sorts: seq<Sort>)
      ensures AllTerms(sorts) == [] <==> sorts == []
    {
    }

    /**
     The attribute vector.  The block of the relation starts at `base`; the outer index runs one step
     further than the vector is long, and the loop over the values advances it as well, which makes
     the vector exactly as long as there are attributes, unless there are no values.
     */
    method GetIntData(base: nat, attributes: nat) returns (data: seq<int>)
      requires base + |AllTerms(SortsOf(values))| <= attributes
      modifies this
      ensures |data| == attributes + if old(values) == [] then 1 else 0
      ensures var terms := AllTerms(SortsOf(old(values)));
              forall k :: 0 <= k < |data| ==>
                data[k] == if base <= k < base + |terms| then ToInt(EvalTerm(terms[k - base], old(values))) else 0
      ensures values == EvalTerms(AllTerms(SortsOf(old(values))), old(values))
    {
      AddDerivedValues();
      AllTermsEmpty(SortsOf(old(values)));
      ghost var empty := values == [];
      data := [];
      var index := 0;
      ghost var end := base + |values|;
      while index <= attributes
        invariant 0 <= index <= attributes + 1
        invariant |data| == if index <= base || empty then index else index - 1
        invariant index <= base || end < index || empty
        invariant forall k :: 0 <= k < |data| ==> data[k] == if base <= k < end then ToInt(values[k - base]) else 0
        invariant values == EvalTerms(AllTerms(SortsOf(old(values))), old(values))
        decreases attributes + 1 - index
      {
        if index < base || index >= base + |values| {
          data := data + [0];
        } else {
          var k := 0;
          while k < |values|
            invariant 0 <= k <= |values| && index == base + k && |data| == base + k
            invariant forall m :: 0 <= m < |data| ==> data[m] == if base <= m < end then ToInt(values[m - base]) else 0
            invariant values == EvalTerms(AllTerms(SortsOf(old(values))), old(values))
          {
            data := data + [ToInt(values[k])];
            index := index + 1;
            k := k + 1;
          }
        }
        index := index + 1;
      }
    }
  }

  // ---------- numbering the attributes of all relations ----------

  datatype Attribute = Attribute(relation: nat, term: Term)

  /** Relation `f` has the attributes from `first[f]` to `last[f]`. */
  datatype Numbering = Numbering(attributes: seq<Attribute>, first: seq<nat>, last: seq<nat>)

  lemma PairStep(sorts: seq<Sort>, i: nat, j: nat)
    requires i < j < |sorts|
    ensures PairTerms(sorts, i, j) ==
              if sorts[i] == IntSort && sorts[j] == IntSort
                  then [Sum(i, j), Difference(i, j)] + PairTerms(sorts, i, j + 1)
              else PairTerms(sorts, i, j + 1)
  {
  }

  /** The sums and differences of the pairs of row `i`. */
  method RowTerms(sorts: seq<Sort>, i: nat) returns (row: seq<Term>)
    requires i < |sorts|
    ensures row + PairTerms(sorts, i, |sorts|) == PairTerms(sorts, i, i + 1)
  {
    hide PairTerms;
    row := [];
    var j := i + 1;
    assert row + PairTerms(sorts, i, j) == PairTerms(sorts, i, j);
    while j < |sorts|
      invariant i < j <= |sorts|
      invariant row + PairTerms(sorts, i, j) == PairTerms(sorts, i, i + 1)
    {
      PairStep(sorts, i, j);
      ghost var rest := PairTerms(sorts, i, j + 1);
      if sorts[i] == IntSort && sorts[j] == IntSort {
        Associative(row, [Sum(i, j), Difference(i, j)], rest);
        row := row + [Sum(i, j), Difference(i, j)];
      }
      j := j + 1;
    }
  }

  lemma TermRow(sorts: seq<Sort>, i: nat)
    requires i < |sorts|
    ensures PairTerms(sorts, i, |sorts|) == if i + 1 < |sorts| then PairTerms(sorts, i + 1, i + 2) else []
  {
    assert PairTerms(sorts, i, |sorts|) ==
             if i + 1 < |sorts| then PairTerms(sorts, i + 1, i + 2) else PairTerms(sorts, i + 1, |sorts|);
  }

  /** The attributes of one relation, built in the order the attribute vector is. */
  method TermsOf(sorts: seq<Sort>) returns (terms: seq<Term>)
    ensures terms == AllTerms(sorts)
  {
    hide PairTerms;
    terms := ArgumentTerms(|sorts|);
    var i := 0;
    FirstTerms(sorts);
    while i < |sorts|
      invariant 0 <= i <= |sorts|
      invariant terms + (if i < |sorts| then PairTerms(sorts, i, i + 1) else []) == AllTerms(sorts)
    {
      TermRow(sorts, i);
      var row := RowTerms(sorts, i);
      Associative(terms, row, PairTerms(sorts, i, |sorts|));
      terms := terms + row;
      i := i + 1;
    }
    assert terms + [] == terms;
  }

  lemma FirstTerms(sorts: seq<Sort>)
    ensures AllTerms(sorts) == ArgumentTerms(|sorts|) + if sorts == [] then [] else PairTerms(sorts, 0, 1)
  {
  }

  /** The attributes of one relation form a block, in the order of its terms. */
  ghost predicate Block(numbering: Numbering, f: nat, sorts: seq<Sort>) {
    && f < |numbering.first| && f < |numbering.last|
    && numbering.first[f] <= numbering.last[f] < |numbering.attributes|
    && numbering.last[f] + 1 - numbering.first[f] == |AllTerms(sorts)|
    && forall k :: 0 <= k < |AllTerms(sorts)| ==>
      numbering.attributes[numbering.first[f] + k] == Attribute(f, AllTerms(sorts)[k])
  }

  /** Every relation has a block, and the blocks follow one another. */
  ghost predicate Numbers(numbering: Numbering, relations: seq<seq<Sort>>) {
    && |numbering.first| == |numbering.last| == |relations|
    && (forall f :: 0 <= f < |relations| ==> Block(numbering, f, relations[f]))
    && (forall f :: 0 < f < |relations| ==> numbering.first[f] == numbering.last[f - 1] + 1)
    && (if relations == [] then numbering.attributes == []
        else numbering.first[0] == 0 && numbering.last[|relations| - 1] + 1 == |numbering.attributes|)
  }

  /** The attributes of one relation, tagged with it. */
  function Tag(f: nat, terms: seq<Term>): (attributes: seq<Attribute>)
    ensures |attributes| == |terms| && forall k :: 0 <= k < |terms| ==> attributes[k] == Attribute(f, terms[k])
  {
    seq(|terms|, k requires 0 <= k < |terms| => Attribute(f, terms[k]))
  }

  /** Numbers the attributes; relations without arguments are refused. */
  method NumberAttributes(relations: seq<seq<Sort>>) returns (r: Option<Numbering>)
    ensures r.None? <==> [] in relations
    ensures r.Some? ==> Numbers(r.value, relations)
  {
    var f := 0;
    while f < |relations|
      invariant 0 <= f <= |relations| && forall g :: 0 <= g < f ==> relations[g] != []
    {
      if |relations[f]| == 0 {
        return None;
      }
      f := f + 1;
    }
    var numbering := NumberNonempty(relations);
    r := Some(numbering);
  }

  method NumberNonempty(relations: seq<seq<Sort>>) returns (numbering: Numbering)
    requires forall g :: 0 <= g < |relations| ==> relations[g] != []
    ensures Numbers(numbering, relations)
  {
    hide AllTerms, Numbers;
    numbering := Numbering([], [], []);
    NumbersNone(relations[..0]);
    var f := 0;
    while f < |relations|
      invariant 0 <= f <= |relations| && Numbers(numbering, relations[..f])
    {
      var terms := TermsOf(relations[f]);
      var left := |numbering.attributes|;
      ghost var before := numbering;
      NotEmptyTerms(relations[f]);
      numbering :=
        Numbering(numbering.attributes + Tag(f, terms), numbering.first + [left],
          numbering.last + [left + |terms| - 1]);
      NumbersStep(before, relations, f, numbering);
      f := f + 1;
    }
    assert relations[..f] == relations;
  }

  lemma NumbersNone(relations: seq<seq<Sort>>)
    requires relations == []
    ensures Numbers(Numbering([], [], []), relations)
  {
  }

  lemma NotEmptyTerms(sorts: seq<Sort>)
    requires sorts != []
    ensures |AllTerms(sorts)| > 0
  {
  }

  lemma NumbersStep(before: Numbering, relations: seq<seq<Sort>>, f: nat, after: Numbering)
    requires f < |relations| && Numbers(before, relations[..f]) && |AllTerms(relations[f])| > 0
    requires after ==
               Numbering(before.attributes + Tag(f, AllTerms(relations[f])), before.first + [|before.attributes|],
                                before.last + [|before.attributes| + |AllTerms(relations[f])| - 1])
    ensures Numbers(after, relations[..f + 1])
  {
    hide AllTerms, Block;
    var more := relations[..f + 1];
    forall g | 0 <= g < |more| ensures Block(after, g, more[g]) {
      if g < f {
        assert more[g] == relations[..f][g];
        OldBlock(before, after, g, more[g]);
      } else {
        NewBlock(before, f, more[f], after);
      }
    }
    assert forall g :: 0 < g < f ==> after.first[g] == before.first[g] && after.last[g - 1] == before.last[g - 1];
  }

  lemma OldBlock(before: Numbering, after: Numbering, g: nat, sorts: seq<Sort>)
    requires Block(before, g, sorts)
    requires before.attributes <= after.attributes && before.first <= after.first && before.last <= after.last
    ensures Block(after, g, sorts)
  {
    hide AllTerms;
  }

  lemma NewBlock(before: Numbering, f: nat, sorts: seq<Sort>, after: Numbering)
    requires |before.first| == |before.last| == f && |AllTerms(sorts)| > 0
    requires after == Numbering(before.attributes + Tag(f, AllTerms(sorts)), before.first + [|before.attributes|],
                                before.last + [|before.attributes| + |AllTerms(sorts)| - 1])
    ensures Block(after, f, sorts)
  {
    hide AllTerms;
  }
}
