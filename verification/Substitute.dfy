/**
 Replacing an uninterpreted predicate in an expression by its conjecture, with an explicit worklist
 and a cache.  Every expression is an application; constants and variables have no arguments.
 */
module Substitute {

  datatype Symbol = True | False | Not | And | Or | AtMost | MoreThan | Plus | Minus

  /**
   A relation, variable `i` of its conjecture, a constant of a CHC, a number, a symbol with a fixed meaning, or
   another function.
   */
  datatype Decl =
    | Predicate(f: nat)
    | Variable(relation: nat, i: nat)
    | Constant(c: nat)
    | Number(n: int)
    | Builtin(symbol: Symbol)
    | Function(id: nat)

  datatype Expr = App(decl: Decl, args: seq<Expr>)

  /** What a declaration means. */
  type Interpretation = (Decl, seq<int>) -> int

  /** A conjecture: an expression over variables. */
  datatype Conjecture = Conjecture(body: Expr, variables: seq<Decl>)

  function IndexOf(s: seq<Decl>, x: Decl): (i: nat)
    requires x in s
    ensures i < |s| && s[i] == x
  {
    if s[0] == x then 0 else 1 + IndexOf(s[1..], x)
  }

  /** Simultaneous replacement of variables: the primitive of the expression library. */
  function ReplaceVariables(e: Expr, variables: seq<Decl>, dest: seq<Expr>): Expr
    requires |variables| == |dest|
  {
    if e.args == [] && e.decl in variables then dest[IndexOf(variables, e.decl)]
    else App(e.decl, seq(|e.args|, i requires 0 <= i < |e.args| => ReplaceVariables(e.args[i], variables, dest)))
  }

  /** Applications of `f` have as many arguments as the conjecture has variables. */
  ghost predicate WellSorted(e: Expr, f: Decl, arity: nat) {
    (e.decl == f ==> |e.args| == arity) && forall i :: 0 <= i < |e.args| ==> WellSorted(e.args[i], f, arity)
  }

  /** The substitution as a recursive function. */
  function Subst(e: Expr, f: Decl, h: Conjecture): Expr
    requires WellSorted(e, f, |h.variables|)
  {
    var args := seq(|e.args|, i requires 0 <= i < |e.args| => Subst(e.args[i], f, h));
    if e.decl == f then ReplaceVariables(h.body, h.variables, args) else App(e.decl, args)
  }

  // ---------- the worklist algorithm ----------

  ghost function Subterms(e: Expr): set<Expr> {
    {e} + set i, x | 0 <= i < |e.args| && x in Subterms(e.args[i]) :: x
  }

  lemma {:induction false} SubtermArgs(e: Expr, x: Expr, i: nat)
    requires x in Subterms(e) && i < |x.args|
    ensures x.args[i] in Subterms(e)
  {
    if x == e {
      assert e.args[i] in Subterms(e.args[i]);
    } else {
      var j :| 0 <= j < |e.args| && x in Subterms(e.args[j]);
      SubtermArgs(e.args[j], x, i);
    }
  }

  lemma {:induction false} SubtermSorted(e: Expr, x: Expr, f: Decl, arity: nat)
    requires WellSorted(e, f, arity) && x in Subterms(e)
    ensures WellSorted(x, f, arity)
  {
    if x != e {
      var j :| 0 <= j < |e.args| && x in Subterms(e.args[j]);
      SubtermSorted(e.args[j], x, f, arity);
    }
  }

  function Size(e: Expr): nat {
    1 + SizeOfAll(e.args)
  }

  function SizeOfAll(es: seq<Expr>): nat {
    if es == [] then 0 else Size(es[0]) + SizeOfAll(es[1..])
  }

  lemma {:induction false} ArgumentSmaller(es: seq<Expr>, i: nat)
    requires i < |es|
    ensures Size(es[i]) <= SizeOfAll(es)
  {
    if i > 0 {
      ArgumentSmaller(es[1..], i - 1);
    }
  }

  lemma SubtermSmaller(e: Expr, x: Expr, i: nat)
    requires x in Subterms(e) && i < |x.args|
    ensures x.args[i] in Subterms(e) && Size(x.args[i]) < Size(x)
  {
    SubtermArgs(e, x, i);
    ArgumentSmaller(x.args, i);
  }

  ghost predicate CacheRight(cache: map<Expr, Expr>, f: Decl, h: Conjecture) {
    forall x :: x in cache ==> WellSorted(x, f, |h.variables|) && cache[x] == Subst(x, f, h)
  }

  lemma CacheKeeps(cache: map<Expr, Expr>, cur: Expr, f: Decl, h: Conjecture)
    requires CacheRight(cache, f, h) && WellSorted(cur, f, |h.variables|)
    ensures CacheRight(cache[cur := Subst(cur, f, h)], f, h)
  {
  }

  lemma CacheStart(e: Expr, f: Decl, h: Conjecture)
    ensures CacheRight(map[], f, h) && e in Subterms(e)
  {
  }

  lemma CacheAnswer(cache: map<Expr, Expr>, e: Expr, f: Decl, h: Conjecture)
    requires CacheRight(cache, f, h) && e in cache && WellSorted(e, f, |h.variables|)
    ensures cache[e] == Subst(e, f, h)
  {
  }

  /** Pushes the arguments that are not cached. */
  method PushMissing(cur: Expr, cache: map<Expr, Expr>, worklist: seq<Expr>) returns (longer: seq<Expr>)
    ensures worklist <= longer
    ensures longer == worklist <==> forall i :: 0 <= i < |cur.args| ==> cur.args[i] in cache
    ensures forall k :: |worklist| <= k < |longer| ==> longer[k] in cur.args && longer[k] !in cache
  {
    longer := worklist;
    var i := 0;
    while i < |cur.args|
      invariant 0 <= i <= |cur.args| && worklist <= longer
      invariant longer == worklist <==> forall j :: 0 <= j < i ==> cur.args[j] in cache
      invariant forall k :: |worklist| <= k < |longer| ==> longer[k] in cur.args && longer[k] !in cache
    {
      if cur.args[i] !in cache {
        longer := longer + [cur.args[i]];
      }
      i := i + 1;
    }
  }

  /** Builds the result for an expression whose arguments are cached. */
  method Build(cur: Expr, f: Decl, h: Conjecture, cache: map<Expr, Expr>) returns (built: Expr)
    requires WellSorted(cur, f, |h.variables|) && CacheRight(cache, f, h)
    requires forall i :: 0 <= i < |cur.args| ==> cur.args[i] in cache
    ensures built == Subst(cur, f, h)
  {
    var dest := [];
    var i := 0;
    while i < |cur.args|
      invariant 0 <= i <= |cur.args| && |dest| == i
      invariant forall j :: 0 <= j < i ==> dest[j] == Subst(cur.args[j], f, h)
    {
      dest := dest + [cache[cur.args[i]]];
      i := i + 1;
    }
    assert dest == seq(|cur.args|, i requires 0 <= i < |cur.args| => Subst(cur.args[i], f, h));
    built := if cur.decl == f then ReplaceVariables(h.body, h.variables, dest) else App(cur.decl, dest);
  }

  /** The subterms that are not cached yet. */
  ghost function Uncached(e: Expr, cache: map<Expr, Expr>): set<Expr> {
    Subterms(e) - cache.Keys
  }

  /** What decreases while no subterm is newly cached: cached expressions are dropped, others are descended into. */
  ghost function Phase(worklist: seq<Expr>, cache: map<Expr, Expr>): nat {
    if worklist == [] then 0 else if worklist[|worklist| - 1] in cache then 2 else 1
  }

  ghost function Cost(worklist: seq<Expr>, cache: map<Expr, Expr>): nat {
    if worklist == [] then 0
    else if worklist[|worklist| - 1] in cache then |worklist|
    else Size(worklist[|worklist| - 1])
  }

  lemma CachedMore(e: Expr, cache: map<Expr, Expr>, cur: Expr, built: Expr)
    requires cur in Subterms(e)
    ensures cur in cache ==>
              cache[cur := built].Keys == cache.Keys && Uncached(e, cache[cur := built]) == Uncached(e, cache)
    ensures cur !in cache ==> Uncached(e, cache[cur := built]) < Uncached(e, cache)
  {
    assert cur !in cache ==> cur in Uncached(e, cache) && cur !in Uncached(e, cache[cur := built]);
  }

  /**
   Replaces `f` by the conjecture `h`.  The stack may hold an expression several times; the loop ends
   all the same, because it caches a new subterm, drops one cached already, or descends into a
   smaller one.
   */
  method SubstituteByWorklist(e: Expr, f: Decl, h: Conjecture) returns (r: Expr)
    requires WellSorted(e, f, |h.variables|)
    ensures r == Subst(e, f, h)
  {
    var cache: map<Expr, Expr> := map[];
    var worklist := [e];
    CacheStart(e, f, h);
    while worklist != []
      invariant CacheRight(cache, f, h)
      invariant forall k :: 0 <= k < |worklist| ==> worklist[k] in Subterms(e)
      invariant e in cache || e in worklist
      decreases Uncached(e, cache), Phase(worklist, cache), Cost(worklist, cache)
    {
      hide Subterms, CacheRight, Size, Uncached, WellSorted;
      var cur := worklist[|worklist| - 1];
      SubtermSorted(e, cur, f, |h.variables|);
      var longer := PushMissing(cur, cache, worklist);
      if longer == worklist {
        worklist := worklist[..|worklist| - 1];
        var built := Build(cur, f, h, cache);
        CachedMore(e, cache, cur, built);
        CacheKeeps(cache, cur, f, h);
        cache := cache[cur := built];
      } else {
        forall k | |worklist| <= k < |longer| ensures longer[k] in Subterms(e) && Size(longer[k]) < Size(cur) {
          var i :| 0 <= i < |cur.args| && cur.args[i] == longer[k];
          SubtermSmaller(e, cur, i);
        }
        worklist := longer;
      }
    }
    r := cache[e];
    CacheAnswer(cache, e, f, h);
  }

  // ---------- meaning ----------

  function Eval(e: Expr, I: Interpretation): int {
    I(e.decl, seq(|e.args|, i requires 0 <= i < |e.args| => Eval(e.args[i], I)))
  }

  function EvalAll(es: seq<Expr>, I: Interpretation): (r: seq<int>)
    ensures |r| == |es| && forall i :: 0 <= i < |es| ==> r[i] == Eval(es[i], I)
  {
    seq(|es|, i requires 0 <= i < |es| => Eval(es[i], I))
  }

  lemma EvalUnfold(e: Expr, I: Interpretation)
    ensures Eval(e, I) == I(e.decl, EvalAll(e.args, I))
  {
    assert EvalAll(e.args, I) == seq(|e.args|, i requires 0 <= i < |e.args| => Eval(e.args[i], I));
  }

  function SetOf(order: seq<Decl>): (s: set<Decl>)
    ensures forall f :: f in s <==> f in order
  {
    set f | f in order
  }

  /** The variables take the given values. */
  function BindVariables(I: Interpretation, variables: seq<Decl>, values: seq<int>): Interpretation
    requires |variables| == |values|
  {
    (g: Decl, args: seq<int>) => if args == [] && g in variables then values[IndexOf(variables, g)] else I(g, args)
  }

  /** The predicate `f` means its conjecture. */
  function Define(I: Interpretation, f: Decl, h: Conjecture): Interpretation {
    (g: Decl, args: seq<int>) =>
      if g == f && |args| == |h.variables| then Eval(h.body, BindVariables(I, h.variables, args)) else I(g, args)
  }

  lemma {:induction false} ReplaceMeaning(e: Expr, variables: seq<Decl>, dest: seq<Expr>, I: Interpretation)
    requires |variables| == |dest|
    ensures Eval(ReplaceVariables(e, variables, dest), I) == Eval(e, BindVariables(I, variables, EvalAll(dest, I)))
  {
    var J := BindVariables(I, variables, EvalAll(dest, I));
    forall i | 0 <= i < |e.args| ensures Eval(ReplaceVariables(e.args[i], variables, dest), I) == Eval(e.args[i], J) {
      ReplaceMeaning(e.args[i], variables, dest, I);
    }
    var r := ReplaceVariables(e, variables, dest);
    if !(e.args == [] && e.decl in variables) {
      assert EvalAll(r.args, I) == EvalAll(e.args, J);
      EvalUnfold(r, I);
    }
    EvalUnfold(e, J);
  }

  /** Evaluating the result is evaluating the original with the predicate meaning its conjecture. */
  lemma {:induction false} SubstMeaning(e: Expr, f: Decl, h: Conjecture, I: Interpretation)
    requires WellSorted(e, f, |h.variables|)
    ensures Eval(Subst(e, f, h), I) == Eval(e, Define(I, f, h))
  {
    var J := Define(I, f, h);
    forall i | 0 <= i < |e.args| ensures Eval(Subst(e.args[i], f, h), I) == Eval(e.args[i], J) {
      SubstMeaning(e.args[i], f, h, I);
    }
    var args := seq(|e.args|, i requires 0 <= i < |e.args| => Subst(e.args[i], f, h));
    assert EvalAll(args, I) == EvalAll(e.args, J);
    EvalUnfold(e, J);
    if e.decl == f {
      ReplaceMeaning(h.body, h.variables, args, I);
    } else {
      EvalUnfold(Subst(e, f, h), I);
    }
  }

  // ---------- several predicates, one after another ----------

  ghost predicate Mentions(e: Expr, f: Decl) {
    e.decl == f || exists i :: 0 <= i < |e.args| && Mentions(e.args[i], f)
  }

  /** Conjectures are over variables only: they mention no predicate, and no variable is a predicate. */
  ghost predicate PredicateFree(conjectures: map<Decl, Conjecture>) {
    forall f, g :: f in conjectures && g in conjectures ==>
      !Mentions(conjectures[f].body, g) && g !in conjectures[f].variables
  }

  ghost predicate SortedFor(e: Expr, conjectures: map<Decl, Conjecture>) {
    forall f :: f in conjectures ==> WellSorted(e, f, |conjectures[f].variables|)
  }

  /** All predicates of the set mean their conjectures at once. */
  function DefineAll(I: Interpretation, conjectures: map<Decl, Conjecture>, fs: set<Decl>): Interpretation
    requires fs <= conjectures.Keys
  {
    (g: Decl, args: seq<int>) =>
      if g in fs && |args| == |conjectures[g].variables|
          then Eval(conjectures[g].body, BindVariables(I, conjectures[g].variables, args))
      else I(g, args)
  }

  /** Only what interpretations say matters. */
  lemma {:induction false} EvalSame(e: Expr, I: Interpretation, J: Interpretation)
    requires forall g, args :: Mentions(e, g) ==> I(g, args) == J(g, args)
    ensures Eval(e, I) == Eval(e, J)
  {
    forall i | 0 <= i < |e.args| ensures Eval(e.args[i], I) == Eval(e.args[i], J) {
      EvalSame(e.args[i], I, J);
    }
    assert EvalAll(e.args, I) == EvalAll(e.args, J);
    assert Mentions(e, e.decl);
    EvalUnfold(e, I);
    EvalUnfold(e, J);
  }

  lemma {:induction false} ReplaceSorted(e: Expr, variables: seq<Decl>, dest: seq<Expr>, g: Decl, arity: nat)
    requires |variables| == |dest| && !Mentions(e, g)
    requires forall i :: 0 <= i < |dest| ==> WellSorted(dest[i], g, arity)
    ensures WellSorted(ReplaceVariables(e, variables, dest), g, arity)
  {
    forall i | 0 <= i < |e.args| ensures WellSorted(ReplaceVariables(e.args[i], variables, dest), g, arity) {
      assert !Mentions(e.args[i], g);
      ReplaceSorted(e.args[i], variables, dest, g, arity);
    }
  }

  /** Substituting one predicate leaves the others applied to the right number of arguments. */
  lemma {:induction false} SubstSorted(e: Expr, f: Decl, h: Conjecture, g: Decl, arity: nat)
    requires WellSorted(e, f, |h.variables|) && WellSorted(e, g, arity) && !Mentions(h.body, g)
    ensures WellSorted(Subst(e, f, h), g, arity)
  {
    forall i | 0 <= i < |e.args| ensures WellSorted(Subst(e.args[i], f, h), g, arity) {
      SubstSorted(e.args[i], f, h, g, arity);
    }
    if e.decl == f {
      ReplaceSorted(h.body, h.variables, seq(|e.args|, i requires 0 <= i < |e.args| => Subst(e.args[i], f, h)), g,
        arity);
    }
  }

  lemma SubstSortedFor(e: Expr, f: Decl, conjectures: map<Decl, Conjecture>)
    requires PredicateFree(conjectures) && SortedFor(e, conjectures) && f in conjectures
    ensures SortedFor(Subst(e, f, conjectures[f]), conjectures)
  {
    forall g | g in conjectures ensures WellSorted(Subst(e, f, conjectures[f]), g, |conjectures[g].variables|) {
      SubstSorted(e, f, conjectures[f], g, |conjectures[g].variables|);
    }
  }

  /** Substitutes the predicates of a CHC one after the other. */
  method SubstituteAll(e: Expr, order: seq<Decl>, conjectures: map<Decl, Conjecture>) returns (r: Expr)
    requires PredicateFree(conjectures) && SortedFor(e, conjectures) && forall f :: f in order ==> f in conjectures
    ensures r == SubstAll(e, order, conjectures)
  {
    r := e;
    var i := 0;
    while i < |order|
      invariant 0 <= i <= |order| && SortedFor(r, conjectures)
      invariant SubstAll(r, order[i..], conjectures) == SubstAll(e, order, conjectures)
    {
      var f := order[i];
      SubstSortedFor(r, f, conjectures);
      assert order[i..][0] == f && order[i..][1..] == order[i + 1..];
      r := SubstituteByWorklist(r, f, conjectures[f]);
      i := i + 1;
    }
  }

  function SubstAll(e: Expr, order: seq<Decl>, conjectures: map<Decl, Conjecture>): Expr
    requires PredicateFree(conjectures) && SortedFor(e, conjectures) && forall f :: f in order ==> f in conjectures
    decreases |order|
  {
    if order == [] then e
    else
      SubstSortedFor(e, order[0], conjectures);
      SubstAll(Subst(e, order[0], conjectures[order[0]]), order[1..], conjectures)
  }

  /** Defining `f` first and then the others is defining all at once, since conjectures mention no predicates. */
  lemma DefineStep(I: Interpretation, conjectures: map<Decl, Conjecture>, f: Decl, fs: set<Decl>, e: Expr)
    requires PredicateFree(conjectures) && f in conjectures && fs <= conjectures.Keys
    ensures Eval(e, Define(DefineAll(I, conjectures, fs), f, conjectures[f])) ==
              Eval(e, DefineAll(I, conjectures, fs + {f}))
  {
    var K := DefineAll(I, conjectures, fs);
    var h := conjectures[f];
    forall g, args | Mentions(e, g)
      ensures Define(K, f, h)(g, args) == DefineAll(I, conjectures, fs + {f})(g, args)
    {
      if g == f && |args| == |h.variables| {
        BindSame(h, conjectures, fs, I, args, f);
      }
    }
    EvalSame(e, Define(K, f, h), DefineAll(I, conjectures, fs + {f}));
  }

  lemma BindSame(h: Conjecture, conjectures: map<Decl, Conjecture>, fs: set<Decl>, I: Interpretation, args: seq<int>,
                 f: Decl)
    requires PredicateFree(conjectures) && fs <= conjectures.Keys && f in conjectures && h == conjectures[f] &&
               |args| == |h.variables|
    ensures Eval(h.body, BindVariables(DefineAll(I, conjectures, fs), h.variables, args)) ==
              Eval(h.body, BindVariables(I, h.variables, args))
  {
    EvalSame(h.body, BindVariables(DefineAll(I, conjectures, fs), h.variables, args),
      BindVariables(I, h.variables, args));
  }

  /**
   Substituting predicates one after another gives all of them the meaning of their conjectures, in
   whatever order they are listed.
   */
  lemma {:induction false} SubstAllMeaning(e: Expr, order: seq<Decl>, conjectures: map<Decl, Conjecture>,
                                           I: Interpretation)
    requires PredicateFree(conjectures) && SortedFor(e, conjectures) && forall f :: f in order ==> f in conjectures
    ensures Eval(SubstAll(e, order, conjectures), I) == Eval(e, DefineAll(I, conjectures, SetOf(order)))
    decreases |order|
  {
    if order == [] {
      EvalSame(e, I, DefineAll(I, conjectures, SetOf(order)));
    } else {
      var f, rest := order[0], order[1..];
      SubstSortedFor(e, f, conjectures);
      var e' := Subst(e, f, conjectures[f]);
      SubstAllMeaning(e', rest, conjectures, I);
      var fs := SetOf(rest);
      SubstMeaning(e, f, conjectures[f], DefineAll(I, conjectures, fs));
      DefineStep(I, conjectures, f, fs, e);
      assert fs + {f} == SetOf(order) by { assert order == [f] + rest; }
    }
  }

  // ---------- the order of substitutions ----------

  /** Substituting several predicates at once. */
  function SubstAtOnce(e: Expr, fs: set<Decl>, conjectures: map<Decl, Conjecture>): Expr
    requires SortedFor(e, conjectures) && fs <= conjectures.Keys
  {
    var args := seq(|e.args|, i requires 0 <= i < |e.args| => SubstAtOnce(e.args[i], fs, conjectures));
    if e.decl in fs then ReplaceVariables(conjectures[e.decl].body, conjectures[e.decl].variables, args)
        else App(e.decl, args)
  }

  function AllAtOnce(es: seq<Expr>, fs: set<Decl>, conjectures: map<Decl, Conjecture>): (r: seq<Expr>)
    requires (forall i :: 0 <= i < |es| ==> SortedFor(es[i], conjectures)) && fs <= conjectures.Keys
    ensures |r| == |es| && forall i :: 0 <= i < |es| ==> r[i] == SubstAtOnce(es[i], fs, conjectures)
  {
    seq(|es|, i requires 0 <= i < |es| => SubstAtOnce(es[i], fs, conjectures))
  }

  lemma AtOnceUnfold(e: Expr, fs: set<Decl>, conjectures: map<Decl, Conjecture>)
    requires SortedFor(e, conjectures) && fs <= conjectures.Keys
    ensures forall i :: 0 <= i < |e.args| ==> SortedFor(e.args[i], conjectures)
    ensures var args := AllAtOnce(e.args, fs, conjectures);
            SubstAtOnce(e, fs, conjectures) ==
              if e.decl in fs then ReplaceVariables(conjectures[e.decl].body, conjectures[e.decl].variables, args)
                  else App(e.decl, args)
  {
    assert AllAtOnce(e.args, fs, conjectures) ==
             seq(|e.args|, i requires 0 <= i < |e.args| => SubstAtOnce(e.args[i], fs, conjectures));
  }

  /** Predicates are substituted in the arguments of a conjecture only, since it mentions none itself. */
  lemma {:induction false} ReplaceAtOnce(e: Expr, variables: seq<Decl>, dest: seq<Expr>, fs: set<Decl>,
                                         conjectures: map<Decl, Conjecture>)
    requires |variables| == |dest| && fs <= conjectures.Keys
    requires forall g :: g in conjectures ==> !Mentions(e, g)
    requires forall i :: 0 <= i < |dest| ==> SortedFor(dest[i], conjectures)
    ensures SortedFor(ReplaceVariables(e, variables, dest), conjectures)
    ensures SubstAtOnce(ReplaceVariables(e, variables, dest), fs, conjectures) ==
              ReplaceVariables(e, variables, AllAtOnce(dest, fs, conjectures))
  {
    var replaced, after := ReplaceVariables(e, variables, dest), AllAtOnce(dest, fs, conjectures);
    forall g | g in conjectures ensures WellSorted(replaced, g, |conjectures[g].variables|) {
      ReplaceSorted(e, variables, dest, g, |conjectures[g].variables|);
    }
    if !(e.args == [] && e.decl in variables) {
      assert Mentions(e, e.decl);
      AtOnceUnfold(replaced, fs, conjectures);
      forall i | 0 <= i < |e.args|
        ensures SubstAtOnce(replaced.args[i], fs, conjectures) == ReplaceVariables(e.args[i], variables, after)
      {
        forall g | g in conjectures ensures !Mentions(e.args[i], g) { assert !Mentions(e, g); }
        ReplaceAtOnce(e.args[i], variables, dest, fs, conjectures);
      }
      assert AllAtOnce(replaced.args, fs, conjectures) ==
               seq(|e.args|, i requires 0 <= i < |e.args| => ReplaceVariables(e.args[i], variables, after));
    }
  }

  /** Substituting one predicate and then others is substituting all of them at once. */
  lemma {:induction false} SubstThenAtOnce(e: Expr, f: Decl, fs: set<Decl>, conjectures: map<Decl, Conjecture>)
    requires PredicateFree(conjectures) && SortedFor(e, conjectures) && f in conjectures && fs <= conjectures.Keys
    ensures SortedFor(Subst(e, f, conjectures[f]), conjectures)
    ensures SubstAtOnce(Subst(e, f, conjectures[f]), fs, conjectures) == SubstAtOnce(e, fs + {f}, conjectures)
  {
    var h := conjectures[f];
    var args := seq(|e.args|, i requires 0 <= i < |e.args| => Subst(e.args[i], f, h));
    SubstSortedFor(e, f, conjectures);
    AtOnceUnfold(e, fs + {f}, conjectures);
    forall i | 0 <= i < |e.args|
      ensures SortedFor(args[i], conjectures) &&
              SubstAtOnce(args[i], fs, conjectures) == SubstAtOnce(e.args[i], fs + {f}, conjectures)
    {
      SubstThenAtOnce(e.args[i], f, fs, conjectures);
    }
    assert AllAtOnce(args, fs, conjectures) == AllAtOnce(e.args, fs + {f}, conjectures);
    if e.decl == f {
      ReplaceAtOnce(h.body, h.variables, args, fs, conjectures);
    } else {
      AtOnceUnfold(App(e.decl, args), fs, conjectures);
    }
  }

  lemma {:induction false} NothingAtOnce(e: Expr, conjectures: map<Decl, Conjecture>)
    requires SortedFor(e, conjectures)
    ensures SubstAtOnce(e, {}, conjectures) == e
  {
    AtOnceUnfold(e, {}, conjectures);
    forall i | 0 <= i < |e.args| ensures SubstAtOnce(e.args[i], {}, conjectures) == e.args[i] {
      NothingAtOnce(e.args[i], conjectures);
    }
    assert AllAtOnce(e.args, {}, conjectures) == e.args;
  }

  /** Substituting predicates one after another is substituting all of them at once. */
  lemma {:induction false} SubstAllAtOnce(e: Expr, order: seq<Decl>, conjectures: map<Decl, Conjecture>)
    requires PredicateFree(conjectures) && SortedFor(e, conjectures) && forall f :: f in order ==> f in conjectures
    ensures SubstAll(e, order, conjectures) == SubstAtOnce(e, SetOf(order), conjectures)
    decreases |order|
  {
    if order == [] {
      NothingAtOnce(e, conjectures);
      assert SetOf(order) == {};
    } else {
      var f, rest := order[0], order[1..];
      SubstThenAtOnce(e, f, SetOf(rest), conjectures);
      SubstAllAtOnce(Subst(e, f, conjectures[f]), rest, conjectures);
      assert SetOf(rest) + {f} == SetOf(order) by { assert order == [f] + rest; }
    }
  }

  /** In particular, the order does not matter to the resulting expression. */
  lemma OrderDoesNotMatter(e: Expr, a: seq<Decl>, b: seq<Decl>, conjectures: map<Decl, Conjecture>)
    requires PredicateFree(conjectures) && SortedFor(e, conjectures)
    requires (forall f :: f in a <==> f in b) && forall f :: f in a ==> f in conjectures
    ensures SubstAll(e, a, conjectures) == SubstAll(e, b, conjectures)
  {
    SubstAllAtOnce(e, a, conjectures);
    SubstAllAtOnce(e, b, conjectures);
    assert SetOf(a) == SetOf(b);
  }
}
