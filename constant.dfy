/**
 * IsConstantExpr: whether an expression is a constant expression in the sense
 * of section 10.1.12 of Fortran 2018. A conjunction walk: a node that is not
 * decided by a rule of its own is constant when all its children are.
 */
module ConstantExpr {
  import opened Wrappers
  import opened Expressions
  import opened Traverse

  /** A symbol is constant when it names a PARAMETER or an implied-DO index. */
  predicate SymbolIsConstant(s: Symbol) {
    s.IsNamedConstant() || s.impliedDoIndex
  }

  /**
   * An integer division needs a divisor that folds to a nonzero constant.
   * As written the dividend is not examined at all; as intended it must be
   * constant too.
   */
  function DivisionIsConstant(fold: Expr -> Option<int>, rd: Reading, dividend: Expr, divisor: Expr): bool
    decreases IntegerDivide(dividend, divisor), 0
  {
    match fold(divisor)
    case Some(v) => v != 0 && (rd == AsWritten || ExprIsConstant(fold, rd, dividend))
    case None => false
  }

  /** The walk over an expression; whatever the reading, a literal expression is constant. */
  function ExprIsConstant(fold: Expr -> Option<int>, rd: Reading, e: Expr): (r: bool)
    ensures Literal(e) ==> r
    decreases e, 1
  {
    match e
    case Constant => true
    case BozLiteral => true
    case NullPointer => true
    case StaticDataObject => true
    case Designator(r) => RefIsConstant(fold, rd, r)
    case Substring(p, lo, up) =>
      ExprIsConstant(fold, rd, p) && OptIsConstant(fold, rd, lo) && OptIsConstant(fold, rd, up)
    case ComplexPart(r) => RefIsConstant(fold, rd, r)
    case TypeParamInquiry(param, _) => param == Kind
    case DescriptorInquiry(r) => RefIsConstant(fold, rd, r)
    case Parentheses(x) => ExprIsConstant(fold, rd, x)
    case Operation(xs) => AllOf(EachIsConstant(fold, rd, xs))
    case IntegerDivide(l, r) => DivisionIsConstant(fold, rd, l, r)
    case Relational(l, r) => ExprIsConstant(fold, rd, l) && ExprIsConstant(fold, rd, r)
    case FunctionRef(p, _) => p.Intrinsic? && p.intrinsicName == "kind"
    case ProcedureDesignator(p) => if p.ProcSymbol? then SymbolIsConstant(p.symbol) else true
    case ArrayConstructor(vs) => AllOf(EachIsConstant(fold, rd, vs))
    case StructureConstructor(ps, vs) =>
      AllOf(EachParamIsConstant(fold, rd, ps)) && AllOf(EachIsConstant(fold, rd, vs))
  }

  function RefIsConstant(fold: Expr -> Option<int>, rd: Reading, r: DataRef): bool
    decreases r, 1
  {
    match r
    case SymbolRef(s) => SymbolIsConstant(s)
    case Component(b, c) => RefIsConstant(fold, rd, b) && SymbolIsConstant(c)
    case ArrayRef(b, subs) => RefIsConstant(fold, rd, b) && AllOf(EachSubscriptIsConstant(fold, rd, subs))
    case CoarrayRef(_, _, _, _) => false
  }

  function SubscriptIsConstant(fold: Expr -> Option<int>, rd: Reading, s: Subscript): bool
    decreases s, 1
  {
    match s
    case Value(v) => ExprIsConstant(fold, rd, v)
    case Triplet(lo, up, st) =>
      OptIsConstant(fold, rd, lo) && OptIsConstant(fold, rd, up) && OptIsConstant(fold, rd, st)
  }

  /** An absent part yields the walk's seed, true. */
  function OptIsConstant(fold: Expr -> Option<int>, rd: Reading, oe: Option<Expr>): bool
    decreases oe, 1
  {
    match oe
    case None => true
    case Some(x) => ExprIsConstant(fold, rd, x)
  }

  /** A parameter value is constant only when it is explicit and its value is. */
  function ParamIsConstant(fold: Expr -> Option<int>, rd: Reading, p: ParamValue): (r: bool)
    ensures p.Explicit? && Literal(p.explicit) ==> r
    decreases p, 1
  {
    match p
    case Explicit(x) => ExprIsConstant(fold, rd, x)
    case NotExplicit => false
  }

  function EachIsConstant(fold: Expr -> Option<int>, rd: Reading, es: seq<Expr>): (rs: seq<bool>)
    ensures |rs| == |es| && forall i | 0 <= i < |es| :: rs[i] == ExprIsConstant(fold, rd, es[i])
    ensures (forall i | 0 <= i < |es| :: Literal(es[i])) ==> AllOf(rs)
    decreases es, 0
  {
    if es == [] then [] else [ExprIsConstant(fold, rd, es[0])] + EachIsConstant(fold, rd, es[1..])
  }

  function EachSubscriptIsConstant(fold: Expr -> Option<int>, rd: Reading, ss: seq<Subscript>): (rs: seq<bool>)
    ensures |rs| == |ss| && forall i | 0 <= i < |ss| :: rs[i] == SubscriptIsConstant(fold, rd, ss[i])
    decreases ss, 0
  {
    if ss == [] then [] else [SubscriptIsConstant(fold, rd, ss[0])] + EachSubscriptIsConstant(fold, rd, ss[1..])
  }

  function EachParamIsConstant(fold: Expr -> Option<int>, rd: Reading, ps: seq<ParamValue>): (rs: seq<bool>)
    ensures |rs| == |ps| && forall i | 0 <= i < |ps| :: rs[i] == ParamIsConstant(fold, rd, ps[i])
    ensures (forall i | 0 <= i < |ps| :: ps[i].Explicit? && Literal(ps[i].explicit)) ==> AllOf(rs)
    decreases ps, 0
  {
    if ps == [] then [] else [ParamIsConstant(fold, rd, ps[0])] + EachParamIsConstant(fold, rd, ps[1..])
  }

  /**
   * The classifier the rest of the model uses: the intended reading. It only
   * takes acceptances away from the code as written, and accepts every literal.
   */
  function IsConstantExpr(fold: Expr -> Option<int>, e: Expr): (r: bool)
    ensures r ==> IsConstantExprAsWritten(fold, e)
    ensures Literal(e) ==> r
  {
    ExprRefines(fold, e);
    ExprIsConstant(fold, Intended, e)
  }

  /** The classifier exactly as the source is written; it accepts every literal. */
  function IsConstantExprAsWritten(fold: Expr -> Option<int>, e: Expr): (r: bool)
    ensures Literal(e) ==> r
  {
    ExprIsConstant(fold, AsWritten, e)
  }

  /** The leaf rules, which read the same under either reading. */
  lemma LeafRules(fold: Expr -> Option<int>, rd: Reading, s: Symbol, p: TypeParamAttr, base: Option<DataRef>,
                  f: Symbol, ss: seq<Symbol>, subs: seq<Subscript>, cos: seq<Expr>,
                  proc: ProcDesignator, args: seq<Option<Expr>>)
    ensures ExprIsConstant(fold, rd, Designator(SymbolRef(s))) <==> Parameter in s.attrs || s.impliedDoIndex
    ensures !ExprIsConstant(fold, rd, Designator(CoarrayRef(f, ss, subs, cos)))
    ensures ExprIsConstant(fold, rd, TypeParamInquiry(p, base)) <==> p == Kind
    ensures ExprIsConstant(fold, rd, FunctionRef(proc, args)) <==> proc == Intrinsic("kind")
  {
    assert ExprIsConstant(fold, rd, Designator(SymbolRef(s))) == RefIsConstant(fold, rd, SymbolRef(s));
    assert ExprIsConstant(fold, rd, Designator(CoarrayRef(f, ss, subs, cos))) == RefIsConstant(fold, rd, CoarrayRef(f, ss, subs, cos));
  }

  /** An integer division is constant iff its divisor folds to nonzero and its dividend is constant. */
  lemma DivisionRule(fold: Expr -> Option<int>, l: Expr, r: Expr)
    ensures IsConstantExpr(fold, IntegerDivide(l, r)) <==>
      fold(r).Some? && fold(r).value != 0 && IsConstantExpr(fold, l)
    ensures IsConstantExprAsWritten(fold, IntegerDivide(l, r)) <==> fold(r).Some? && fold(r).value != 0
  {
    assert IsConstantExpr(fold, IntegerDivide(l, r)) == DivisionIsConstant(fold, Intended, l, r);
    assert IsConstantExprAsWritten(fold, IntegerDivide(l, r)) == DivisionIsConstant(fold, AsWritten, l, r);
  }

  /** Under either reading, parentheses and operations are transparent: constant exactly when every operand is. */
  lemma DefaultIsConjunction(fold: Expr -> Option<int>, rd: Reading, x: Expr, xs: seq<Expr>)
    ensures ExprIsConstant(fold, rd, Parentheses(x)) == ExprIsConstant(fold, rd, x)
    ensures ExprIsConstant(fold, rd, Operation(xs)) <==> forall i | 0 <= i < |xs| :: ExprIsConstant(fold, rd, xs[i])
  {
  }

  /** The intended reading only takes acceptances away from the code as written. */
  lemma {:induction false} ExprRefines(fold: Expr -> Option<int>, e: Expr)
    ensures ExprIsConstant(fold, Intended, e) ==> ExprIsConstant(fold, AsWritten, e)
    decreases e
  {
    match e
    case Designator(r) => RefRefines(fold, r);
    case Substring(p, lo, up) =>
      ExprRefines(fold, p);
      OptRefines(fold, lo);
      OptRefines(fold, up);
    case ComplexPart(r) => RefRefines(fold, r);
    case DescriptorInquiry(r) => RefRefines(fold, r);
    case Parentheses(x) => ExprRefines(fold, x);
    case Operation(xs) => EachRefines(fold, xs);
    case IntegerDivide(l, r) =>
      ExprRefines(fold, l);
      assert ExprIsConstant(fold, Intended, e) == DivisionIsConstant(fold, Intended, l, r);
      assert ExprIsConstant(fold, AsWritten, e) == DivisionIsConstant(fold, AsWritten, l, r);
    case Relational(l, r) =>
      ExprRefines(fold, l);
      ExprRefines(fold, r);
    case ArrayConstructor(vs) => EachRefines(fold, vs);
    case StructureConstructor(ps, vs) =>
      forall i | 0 <= i < |ps| ensures ParamIsConstant(fold, Intended, ps[i]) ==> ParamIsConstant(fold, AsWritten, ps[i]) {
        if ps[i].Explicit? {
          ExprRefines(fold, ps[i].explicit);
        }
      }
      EachRefines(fold, vs);
    case _ =>
  }

  lemma {:induction false} RefRefines(fold: Expr -> Option<int>, r: DataRef)
    ensures RefIsConstant(fold, Intended, r) ==> RefIsConstant(fold, AsWritten, r)
    decreases r
  {
    match r
    case Component(b, _) => RefRefines(fold, b);
    case ArrayRef(b, subs) =>
      RefRefines(fold, b);
      forall i | 0 <= i < |subs|
        ensures SubscriptIsConstant(fold, Intended, subs[i]) ==> SubscriptIsConstant(fold, AsWritten, subs[i])
      {
        match subs[i]
        case Value(v) => ExprRefines(fold, v);
        case Triplet(lo, up, st) =>
          OptRefines(fold, lo);
          OptRefines(fold, up);
          OptRefines(fold, st);
      }
    case _ =>
  }

  lemma {:induction false} OptRefines(fold: Expr -> Option<int>, oe: Option<Expr>)
    ensures OptIsConstant(fold, Intended, oe) ==> OptIsConstant(fold, AsWritten, oe)
    decreases oe
  {
    if oe.Some? {
      ExprRefines(fold, oe.value);
    }
  }

  lemma {:induction false} EachRefines(fold: Expr -> Option<int>, es: seq<Expr>)
    ensures AllOf(EachIsConstant(fold, Intended, es)) ==> AllOf(EachIsConstant(fold, AsWritten, es))
    decreases es
  {
    forall i | 0 <= i < |es| ensures ExprIsConstant(fold, Intended, es[i]) ==> ExprIsConstant(fold, AsWritten, es[i]) {
      ExprRefines(fold, es[i]);
    }
  }

  /**
   * The division rule as written accepts a variable dividend: with x a plain
   * variable and the divisor folding to 3, x / 3 is accepted as written and
   * rejected as intended.
   */
  lemma VariableDividendAccepted()
    ensures var x := Symbol("x", {}, ObjectEntity(ObjectDetails(false, false, false, false)), 0, 0, 1, false);
            var fold := (e: Expr) => if e == Constant then Some(3) else None;
            IsConstantExprAsWritten(fold, IntegerDivide(Designator(SymbolRef(x)), Constant)) &&
            !IsConstantExpr(fold, IntegerDivide(Designator(SymbolRef(x)), Constant))
  {
  }
}
