/**
 * IsSimplyContiguous: whether a variable reference is simply contiguous
 * (section 9.5.4 of Fortran 2018). A search walk over a three-valued answer:
 * present true, present false, or unknown; an unknown answer at the top means
 * not contiguous, and an expression that is not a variable is contiguous.
 */
module SimplyContiguous {
  import opened Wrappers
  import opened Expressions
  import opened Traverse

  /**
   * The symbol rule; it always gives an answer. A symbol with CONTIGUOUS is
   * contiguous; an array without it is contiguous only when it is an object,
   * not a pointer, and neither assumed-shape nor assumed-rank.
   */
  function SymbolIsContiguous(s: Symbol): (r: bool)
    ensures Contiguous in s.attrs ==> r
    ensures s.rank > 0 && Contiguous !in s.attrs && r ==>
      Pointer !in s.attrs && s.IsObject() && !s.details.obj.assumedShape && !s.details.obj.assumedRank
  {
    if Contiguous in s.attrs || s.rank == 0 then true
    else if Pointer in s.attrs then false
    else match s.details
      case ObjectEntity(d) => !d.assumedShape && !d.assumedRank
      case _ => false
  }

  /** A triplet's stride is one when absent or when it folds to 1. */
  predicate StrideIsOne(o: Oracle, stride: Option<Expr>) {
    stride.None? || o.fold(stride.value) == Some(1)
  }

  /** A triplet with neither bound, written ":". */
  predicate IsBare(s: Subscript) {
    s.Triplet? && s.lower.None? && s.upper.None?
  }

  /**
   * The subscripts from position `from` on can select a simply contiguous
   * section: every subscript to the left of a triplet is a bare ":", every
   * stride is one and every value subscript is scalar.
   */
  predicate SectionFrom(o: Oracle, subs: seq<Subscript>, from: nat)
    requires from <= |subs|
  {
    && (forall i, j | from <= i < j < |subs| :: subs[j].Triplet? ==> IsBare(subs[i]))
    && (forall j | from <= j < |subs| :: subs[j].Triplet? ==> StrideIsOne(o, subs[j].stride))
    && (forall j | from <= j < |subs| :: subs[j].Value? ==> o.rank(subs[j].value) == 0)
  }

  /** The number of triplets from position `from` on. */
  function TripletsFrom(subs: seq<Subscript>, from: nat): nat
    requires from <= |subs|
    decreases |subs| - from
  {
    if from == |subs| then 0 else (if subs[from].Triplet? then 1 else 0) + TripletsFrom(subs, from + 1)
  }

  /** The subscript pattern: the section's rank when it can be simply contiguous. */
  function SubscriptPattern(o: Oracle, subs: seq<Subscript>): Option<nat> {
    if SectionFrom(o, subs, 0) then Some(TripletsFrom(subs, 0)) else None
  }

  /** The subscript scan as the source runs it, right to left. */
  method CheckSubscripts(o: Oracle, subs: seq<Subscript>) returns (rank: Option<nat>)
    ensures rank == SubscriptPattern(o, subs)
  {
    var anyTriplet := false;
    var count := 0;
    var j := |subs|;
    while j > 0
      invariant 0 <= j <= |subs|
      invariant anyTriplet <==> exists k | j <= k < |subs| :: subs[k].Triplet?
      invariant count == TripletsFrom(subs, j)
      invariant SectionFrom(o, subs, j)
    {
      j := j - 1;
      match subs[j]
      case Triplet(lo, up, st) =>
        if !StrideIsOne(o, st) {
          return None;
        } else if anyTriplet {
          if lo.Some? || up.Some? {
            var k :| j < k < |subs| && subs[k].Triplet?;
            assert !IsBare(subs[j]);
            return None;
          }
        } else {
          anyTriplet := true;
        }
        count := count + 1;
      case Value(v) =>
        if anyTriplet {
          var k :| j < k < |subs| && subs[k].Triplet?;
          assert !IsBare(subs[j]);
          return None;
        } else if o.rank(v) > 0 {
          return None;
        }
    }
    return Some(count);
  }

  /** At most one triplet per subscript. */
  lemma {:induction false} TripletsBounded(subs: seq<Subscript>, from: nat)
    requires from <= |subs|
    ensures TripletsFrom(subs, from) <= |subs| - from
    decreases |subs| - from
  {
    if from < |subs| {
      TripletsBounded(subs, from + 1);
    }
  }

  /**
   * When the pattern succeeds, its rank is the length of the leading run of
   * triplets: every subscript before that position is a triplet, every one
   * after it is a scalar value.
   */
  lemma {:induction false} RankIsLeadingTriplets(o: Oracle, subs: seq<Subscript>, from: nat)
    requires from <= |subs| && SectionFrom(o, subs, from)
    ensures var k := from + TripletsFrom(subs, from);
            && k <= |subs|
            && (forall i | from <= i < k :: subs[i].Triplet?)
            && (forall i | k <= i < |subs| :: subs[i].Value? && o.rank(subs[i].value) == 0)
    decreases |subs| - from
  {
    if from < |subs| {
      RankIsLeadingTriplets(o, subs, from + 1);
      var k' := from + 1 + TripletsFrom(subs, from + 1);
      assert k' > from + 1 ==> subs[from + 1].Triplet?;
    }
  }

  /** The worked cases: (:, :, 1:5) has rank 3; (:, 2:4, :) fails. */
  lemma PatternExamples(o: Oracle, one: Expr, five: Expr, two: Expr, four: Expr)
    ensures SubscriptPattern(o, [Triplet(None, None, None), Triplet(None, None, None), Triplet(Some(one), Some(five), None)]) == Some(3)
    ensures SubscriptPattern(o, [Triplet(None, None, None), Triplet(Some(two), Some(four), None), Triplet(None, None, None)]) == None
  {
    var good := [Triplet(None, None, None), Triplet(None, None, None), Triplet(Some(one), Some(five), None)];
    assert TripletsFrom(good, 0) == 3 by {
      assert TripletsFrom(good, 3) == 0;
      assert TripletsFrom(good, 2) == 1;
      assert TripletsFrom(good, 1) == 2;
    }
    var bad := [Triplet(None, None, None), Triplet(Some(two), Some(four), None), Triplet(None, None, None)];
    assert bad[2].Triplet? && !IsBare(bad[1]);
  }

  /** The walk over an expression; a designator or a function reference always gets an answer. */
  function ExprContiguity(o: Oracle, rd: Reading, e: Expr): (r: Option<bool>)
    ensures e.Designator? || e.FunctionRef? ==> r.Some?
    decreases e, 1
  {
    match e
    case Constant => None
    case BozLiteral => None
    case NullPointer => None
    case StaticDataObject => None
    case Designator(r) => RefContiguity(o, rd, r)
    case Substring(_, _, _) => Some(false)
    case ComplexPart(_) => Some(false)
    case TypeParamInquiry(_, base) => if base.Some? then RefContiguity(o, rd, base.value) else None
    case DescriptorInquiry(r) => RefContiguity(o, rd, r)
    case Parentheses(x) => ExprContiguity(o, rd, x)
    case Operation(xs) => FirstFound(EachContiguity(o, rd, xs))
    case IntegerDivide(l, r) => OrElse(ExprContiguity(o, rd, l), ExprContiguity(o, rd, r))
    case Relational(l, r) => OrElse(ExprContiguity(o, rd, l), ExprContiguity(o, rd, r))
    case FunctionRef(p, _) =>
      var chars := o.characterize(p);
      Some(chars.Some? && !chars.value.isProcedurePointer && chars.value.pointer && chars.value.contiguous)
    case ProcedureDesignator(p) => if p.ProcSymbol? then Some(SymbolIsContiguous(p.symbol)) else None
    case ArrayConstructor(vs) => FirstFound(EachContiguity(o, rd, vs))
    case StructureConstructor(ps, vs) =>
      OrElse(FirstFound(EachParamContiguity(o, rd, ps)), FirstFound(EachContiguity(o, rd, vs)))
  }

  /**
   * As written, the base symbol's answer of an array reference, and the last
   * symbol's answer of a component, are checked for presence rather than for
   * their value; they are always present, so those tests never fail.
   */
  function SymbolPasses(rd: Reading, s: Symbol): bool {
    var answer: Option<bool> := Some(SymbolIsContiguous(s));
    if rd == AsWritten then answer.Some? else answer == Some(true)
  }

  /** Every data reference gets an answer, under either reading. */
  function RefContiguity(o: Oracle, rd: Reading, r: DataRef): (a: Option<bool>)
    ensures a.Some?
    decreases r, 1
  {
    match r
    case SymbolRef(s) => Some(SymbolIsContiguous(s))
    case Component(b, c) => Some(o.rank(Designator(b)) == 0 && SymbolPasses(rd, c))
    case ArrayRef(b, subs) =>
      if !SymbolPasses(rd, b.LastSymbol()) then Some(false)
      else
        var rank := SubscriptPattern(o, subs);
        Some(rank.Some? && (rank.value > 0 || o.rank(Designator(r)) == 0))
    case CoarrayRef(_, _, subs, _) => Some(SubscriptPattern(o, subs).Some?)
  }

  function ParamContiguity(o: Oracle, rd: Reading, p: ParamValue): Option<bool>
    decreases p, 1
  {
    if p.Explicit? then ExprContiguity(o, rd, p.explicit) else None
  }

  function EachContiguity(o: Oracle, rd: Reading, es: seq<Expr>): (rs: seq<Option<bool>>)
    ensures |rs| == |es| && forall i | 0 <= i < |es| :: rs[i] == ExprContiguity(o, rd, es[i])
    decreases es, 0
  {
    if es == [] then [] else [ExprContiguity(o, rd, es[0])] + EachContiguity(o, rd, es[1..])
  }

  function EachParamContiguity(o: Oracle, rd: Reading, ps: seq<ParamValue>): (rs: seq<Option<bool>>)
    ensures |rs| == |ps| && forall i | 0 <= i < |ps| :: rs[i] == ParamContiguity(o, rd, ps[i])
    decreases ps, 0
  {
    if ps == [] then [] else [ParamContiguity(o, rd, ps[0])] + EachParamContiguity(o, rd, ps[1..])
  }

  /**
   * The entry point: an expression that is not a variable is contiguous; a
   * variable is contiguous exactly when its walk finds the answer true.
   */
  function IsSimplyContiguousAs(o: Oracle, rd: Reading, e: Expr): (r: bool)
    ensures !o.isVariable(e) ==> r
    ensures o.isVariable(e) && ExprContiguity(o, rd, e).None? ==> !r
    ensures o.isVariable(e) && ExprContiguity(o, rd, e) == Some(false) ==> !r
    ensures o.isVariable(e) && ExprContiguity(o, rd, e) == Some(true) ==> r
  {
    if o.isVariable(e) then ExprContiguity(o, rd, e) == Some(true) else true
  }

  /**
   * The classifier the rest of the model uses: the intended reading. It only
   * takes acceptances away from the code as written.
   */
  function IsSimplyContiguous(o: Oracle, e: Expr): (r: bool)
    ensures r ==> IsSimplyContiguousAsWritten(o, e)
  {
    ExprRefines(o, e);
    IsSimplyContiguousAs(o, Intended, e)
  }

  /** The classifier exactly as the source is written. */
  function IsSimplyContiguousAsWritten(o: Oracle, e: Expr): bool {
    IsSimplyContiguousAs(o, AsWritten, e)
  }

  /** The symbol rule, and the node kinds that are never contiguous; the same under either reading. */
  lemma SymbolAndPartRules(o: Oracle, rd: Reading, s: Symbol, p: Expr, lo: Option<Expr>, up: Option<Expr>, c: DataRef)
    ensures ExprContiguity(o, rd, Designator(SymbolRef(s))) == Some(
      if Contiguous in s.attrs || s.rank == 0 then true
      else if Pointer in s.attrs then false
      else s.IsObject() && !s.details.obj.assumedShape && !s.details.obj.assumedRank)
    ensures ExprContiguity(o, rd, Substring(p, lo, up)) == Some(false)
    ensures ExprContiguity(o, rd, ComplexPart(c)) == Some(false)
  {
    assert ExprContiguity(o, rd, Designator(SymbolRef(s))) == RefContiguity(o, rd, SymbolRef(s));
  }

  /** A coarray reference is contiguous iff its subscripts fit, whatever the rank and the reading. */
  lemma CoarrayRule(o: Oracle, rd: Reading, f: Symbol, path: seq<Symbol>, subs: seq<Subscript>, cos: seq<Expr>)
    ensures ExprContiguity(o, rd, Designator(CoarrayRef(f, path, subs, cos))) == Some(SubscriptPattern(o, subs).Some?)
  {
    assert ExprContiguity(o, rd, Designator(CoarrayRef(f, path, subs, cos))) ==
      RefContiguity(o, rd, CoarrayRef(f, path, subs, cos));
  }

  /**
   * As intended, an array reference is contiguous iff its base symbol is and
   * its subscripts fit, with rank > 0 or a scalar result. As written, the
   * base symbol is not consulted at all.
   */
  lemma ArrayRefRule(o: Oracle, b: DataRef, subs: seq<Subscript>)
    ensures var r := ArrayRef(b, subs);
            ExprContiguity(o, Intended, Designator(r)) == Some(
              && SymbolIsContiguous(b.LastSymbol())
              && SubscriptPattern(o, subs).Some?
              && (SubscriptPattern(o, subs).value > 0 || o.rank(Designator(r)) == 0))
    ensures var r := ArrayRef(b, subs);
            ExprContiguity(o, AsWritten, Designator(r)) == Some(
              && SubscriptPattern(o, subs).Some?
              && (SubscriptPattern(o, subs).value > 0 || o.rank(Designator(r)) == 0))
  {
    assert ExprContiguity(o, Intended, Designator(ArrayRef(b, subs))) == RefContiguity(o, Intended, ArrayRef(b, subs));
    assert ExprContiguity(o, AsWritten, Designator(ArrayRef(b, subs))) == RefContiguity(o, AsWritten, ArrayRef(b, subs));
  }

  /**
   * As intended, a component is contiguous iff its base is scalar and its
   * symbol is contiguous. As written, only the base's rank matters.
   */
  lemma ComponentRule(o: Oracle, b: DataRef, c: Symbol)
    ensures ExprContiguity(o, Intended, Designator(Component(b, c))) ==
      Some(o.rank(Designator(b)) == 0 && SymbolIsContiguous(c))
    ensures ExprContiguity(o, AsWritten, Designator(Component(b, c))) == Some(o.rank(Designator(b)) == 0)
  {
    assert ExprContiguity(o, Intended, Designator(Component(b, c))) == RefContiguity(o, Intended, Component(b, c));
    assert ExprContiguity(o, AsWritten, Designator(Component(b, c))) == RefContiguity(o, AsWritten, Component(b, c));
  }

  /** A function result is contiguous iff it is a contiguous data pointer, under either reading. */
  lemma FunctionRule(o: Oracle, rd: Reading, p: ProcDesignator, args: seq<Option<Expr>>)
    ensures ExprContiguity(o, rd, FunctionRef(p, args)) == Some(
      o.characterize(p).Some? && !o.characterize(p).value.isProcedurePointer &&
      o.characterize(p).value.pointer && o.characterize(p).value.contiguous)
  {
  }

  /** A pointer array without CONTIGUOUS is never simply contiguous, whatever its subscripts. */
  lemma PointerNeverContiguous(o: Oracle, p: Symbol, subs: seq<Subscript>)
    requires Pointer in p.attrs && Contiguous !in p.attrs && p.rank > 0
    requires o.isVariable(Designator(SymbolRef(p))) && o.isVariable(Designator(ArrayRef(SymbolRef(p), subs)))
    ensures !IsSimplyContiguous(o, Designator(SymbolRef(p)))
    ensures !IsSimplyContiguous(o, Designator(ArrayRef(SymbolRef(p), subs)))
  {
    assert ExprContiguity(o, Intended, Designator(SymbolRef(p))) == RefContiguity(o, Intended, SymbolRef(p));
    assert ExprContiguity(o, Intended, Designator(ArrayRef(SymbolRef(p), subs))) ==
      RefContiguity(o, Intended, ArrayRef(SymbolRef(p), subs));
  }

  /** A non-contiguous pointer array p, used in the two witnesses below. */
  function PointerArray(): Symbol {
    Symbol("p", {Pointer}, ObjectEntity(ObjectDetails(false, false, false, false)), 1, 0, 1, false)
  }

  /**
   * An oracle under which every expression is a variable, nothing folds, and
   * a designator has the rank of its last symbol; that is its true rank for
   * the whole references and full sections used below.
   */
  function WholeRankOracle(): Oracle {
    Oracle(s => s, s => true, s => true, e => None,
           (e: Expr) => if e.Designator? then e.ref.LastSymbol().rank else 0, e => true, p => None)
  }

  /** As written, p(:) counts as simply contiguous for a non-contiguous pointer p; as intended it does not. */
  lemma PointerSectionAcceptedAsWritten()
    ensures var e := Designator(ArrayRef(SymbolRef(PointerArray()), [Triplet(None, None, None)]));
            && WholeRankOracle().rank(e) == 1
            && IsSimplyContiguousAsWritten(WholeRankOracle(), e) && !IsSimplyContiguous(WholeRankOracle(), e)
  {
    var subs := [Triplet(None, None, None)];
    assert SectionFrom(WholeRankOracle(), subs, 0);
    assert TripletsFrom(subs, 0) == 1 by {
      assert TripletsFrom(subs, 1) == 0;
    }
  }

  /** As written, t%p counts as simply contiguous for a non-contiguous pointer component p; as intended it does not. */
  lemma PointerComponentAcceptedAsWritten(t: Symbol)
    requires t.rank == 0
    ensures var e := Designator(Component(SymbolRef(t), PointerArray()));
            && WholeRankOracle().rank(e) == 1
            && IsSimplyContiguousAsWritten(WholeRankOracle(), e) && !IsSimplyContiguous(WholeRankOracle(), e)
  {
  }

  /** The walk finds an answer under one reading exactly when it finds one under the other. */
  lemma {:induction false} SameAnswerPresence(o: Oracle, e: Expr)
    ensures ExprContiguity(o, Intended, e).Some? == ExprContiguity(o, AsWritten, e).Some?
    decreases e, 2
  {
    if e.IntegerDivide? || e.Relational? {
      BinarySamePresence(o, e);
    } else if e.Operation? || e.ArrayConstructor? || e.StructureConstructor? {
      ConstructorSamePresence(o, e);
    } else if e.Parentheses? {
      SameAnswerPresence(o, e.operand);
    }
  }

  lemma {:induction false} BinarySamePresence(o: Oracle, e: Expr)
    requires e.IntegerDivide? || e.Relational?
    ensures ExprContiguity(o, Intended, e).Some? == ExprContiguity(o, AsWritten, e).Some?
    decreases e, 1
  {
    match e
    case IntegerDivide(l, r) =>
      SameAnswerPresence(o, l);
      SameAnswerPresence(o, r);
    case Relational(l, r) =>
      SameAnswerPresence(o, l);
      SameAnswerPresence(o, r);
  }

  lemma {:induction false} ConstructorSamePresence(o: Oracle, e: Expr)
    requires e.Operation? || e.ArrayConstructor? || e.StructureConstructor?
    ensures ExprContiguity(o, Intended, e).Some? == ExprContiguity(o, AsWritten, e).Some?
    decreases e, 1
  {
    match e
    case Operation(xs) => EachSamePresence(o, xs);
    case ArrayConstructor(vs) => EachSamePresence(o, vs);
    case StructureConstructor(ps, vs) => StructureSamePresence(o, ps, vs);
  }

  lemma {:induction false} StructureSamePresence(o: Oracle, ps: seq<ParamValue>, vs: seq<Expr>)
    ensures ExprContiguity(o, Intended, StructureConstructor(ps, vs)).Some? ==
            ExprContiguity(o, AsWritten, StructureConstructor(ps, vs)).Some?
    decreases StructureConstructor(ps, vs), 0
  {
    ParamsSamePresence(o, ps);
    EachSamePresence(o, vs);
    assert ExprContiguity(o, Intended, StructureConstructor(ps, vs)) ==
      OrElse(FirstFound(EachParamContiguity(o, Intended, ps)), FirstFound(EachContiguity(o, Intended, vs)));
    assert ExprContiguity(o, AsWritten, StructureConstructor(ps, vs)) ==
      OrElse(FirstFound(EachParamContiguity(o, AsWritten, ps)), FirstFound(EachContiguity(o, AsWritten, vs)));
  }

  lemma {:induction false} ParamSamePresence(o: Oracle, p: ParamValue)
    ensures ParamContiguity(o, Intended, p).Some? == ParamContiguity(o, AsWritten, p).Some?
    decreases p
  {
    if p.Explicit? {
      SameAnswerPresence(o, p.explicit);
    }
  }

  lemma {:induction false} ParamsSamePresence(o: Oracle, ps: seq<ParamValue>)
    ensures FirstFound(EachParamContiguity(o, Intended, ps)).Some? == FirstFound(EachParamContiguity(o, AsWritten, ps)).Some?
    decreases ps
  {
    forall i | 0 <= i < |ps|
      ensures ParamContiguity(o, Intended, ps[i]).Some? == ParamContiguity(o, AsWritten, ps[i]).Some?
    {
      ParamSamePresence(o, ps[i]);
    }
  }

  lemma {:induction false} EachSamePresence(o: Oracle, es: seq<Expr>)
    ensures FirstFound(EachContiguity(o, Intended, es)).Some? == FirstFound(EachContiguity(o, AsWritten, es)).Some?
    decreases es
  {
    forall i | 0 <= i < |es| ensures ExprContiguity(o, Intended, es[i]).Some? == ExprContiguity(o, AsWritten, es[i]).Some? {
      SameAnswerPresence(o, es[i]);
    }
  }

  /** The intended reading only takes acceptances away from the code as written. */
  lemma {:induction false} ExprRefines(o: Oracle, e: Expr)
    ensures ExprContiguity(o, Intended, e) == Some(true) ==> ExprContiguity(o, AsWritten, e) == Some(true)
    decreases e
  {
    match e
    case Designator(r) => RefRefines(o, r);
    case TypeParamInquiry(_, base) =>
      if base.Some? {
        RefRefines(o, base.value);
      }
    case DescriptorInquiry(r) => RefRefines(o, r);
    case Parentheses(x) => ExprRefines(o, x);
    case Operation(xs) => EachRefines(o, xs);
    case IntegerDivide(l, r) =>
      SameAnswerPresence(o, l);
      ExprRefines(o, l);
      ExprRefines(o, r);
    case Relational(l, r) =>
      SameAnswerPresence(o, l);
      ExprRefines(o, l);
      ExprRefines(o, r);
    case ArrayConstructor(vs) => EachRefines(o, vs);
    case StructureConstructor(ps, vs) =>
      var pi := EachParamContiguity(o, Intended, ps);
      var pa := EachParamContiguity(o, AsWritten, ps);
      forall i | 0 <= i < |ps| ensures pi[i].Some? == pa[i].Some? && (pi[i] == Some(true) ==> pa[i] == Some(true)) {
        if ps[i].Explicit? {
          SameAnswerPresence(o, ps[i].explicit);
          ExprRefines(o, ps[i].explicit);
        }
      }
      FirstFoundRefines(pi, pa);
      EachRefines(o, vs);
    case _ =>
  }

  lemma RefRefines(o: Oracle, r: DataRef)
    ensures RefContiguity(o, Intended, r) == Some(true) ==> RefContiguity(o, AsWritten, r) == Some(true)
  {
  }

  lemma {:induction false} EachRefines(o: Oracle, es: seq<Expr>)
    ensures FirstFound(EachContiguity(o, Intended, es)) == Some(true) ==> FirstFound(EachContiguity(o, AsWritten, es)) == Some(true)
    decreases es
  {
    var ri := EachContiguity(o, Intended, es);
    var ra := EachContiguity(o, AsWritten, es);
    forall i | 0 <= i < |es| ensures ri[i].Some? == ra[i].Some? && (ri[i] == Some(true) ==> ra[i] == Some(true)) {
      SameAnswerPresence(o, es[i]);
      ExprRefines(o, es[i]);
    }
    FirstFoundRefines(ri, ra);
  }

  /** Two searches whose answers are present at the same places, the second true wherever the first is. */
  lemma FirstFoundRefines(ri: seq<Option<bool>>, ra: seq<Option<bool>>)
    requires |ri| == |ra|
    requires forall i | 0 <= i < |ri| :: ri[i].Some? == ra[i].Some? && (ri[i] == Some(true) ==> ra[i] == Some(true))
    ensures FirstFound(ri) == Some(true) ==> FirstFound(ra) == Some(true)
  {
    if FirstFound(ri) == Some(true) {
      var k :| 0 <= k < |ri| && ri[k] == Some(true) && forall j | 0 <= j < k :: ri[j].None?;
      FirstFoundAt(ra, k);
    }
  }
}
