/**
 * IsInitialDataTarget: whether an expression has the shape allowed for the
 * target of a pointer initialization "=> x" (constraint C765 of Fortran 2018).
 * Checking a symbol also reports, on a message sink, the first of four
 * attribute violations of its ultimate symbol; the shape verdict for a symbol
 * is always true. Nodes without a rule of their own are conjunctions of their
 * children, stopping at the first child that is rejected.
 */
module InitialDataTarget {
  import opened Wrappers
  import opened Expressions
  import opened Traverse
  import opened Diagnostics
  import ConstantExpr

  /** The shape verdict and the messages a check produces, in order. */
  datatype Outcome = Outcome(ok: bool, diagnostics: seq<Diagnostic>)

  const Accepted := Outcome(true, [])
  const Rejected := Outcome(false, [])

  /** The conjunction of two children: the second is not visited once the first is rejected. */
  function AndThen(a: Outcome, b: Outcome): Outcome {
    if !a.ok then a else Outcome(b.ok, a.diagnostics + b.diagnostics)
  }

  /** Every attribute violation of an ultimate symbol, in priority order. */
  function Violations(o: Oracle, u: Symbol): seq<Diagnostic> {
    (if Allocatable in u.attrs then [AllocatableTarget(u.name)] else []) +
    (if u.corank > 0 then [CoarrayTarget(u.name)] else []) +
    (if Target !in u.attrs then [NoTargetAttribute(u.name)] else []) +
    (if !o.isSaved(u) then [NoSaveAttribute(u.name)] else [])
  }

  /**
   * The symbol rule: always accepted, with no message when the ultimate
   * symbol has no violation and otherwise exactly the first one.
   */
  function SymbolTarget(o: Oracle, s: Symbol): (out: Outcome)
    ensures var v := Violations(o, o.ultimate(s));
            && out.ok
            && (out.diagnostics == [] <==> v == [])
            && (v != [] ==> out.diagnostics == [v[0]])
  {
    var u := o.ultimate(s);
    if Allocatable in u.attrs then Outcome(true, [AllocatableTarget(u.name)])
    else if u.corank > 0 then Outcome(true, [CoarrayTarget(u.name)])
    else if Target !in u.attrs then Outcome(true, [NoTargetAttribute(u.name)])
    else if !o.isSaved(u) then Outcome(true, [NoSaveAttribute(u.name)])
    else Accepted
  }

  /**
   * A subscript is acceptable when it is constant; a value subscript must also
   * be scalar. Constancy is decided by the constant-expression classifier
   * under the given reading; the source calls it as written.
   */
  function SubscriptTarget(o: Oracle, rd: Reading, s: Subscript): (r: bool)
    ensures s.Value? && o.rank(s.value) > 0 ==> !r
    ensures s.Value? && o.rank(s.value) == 0 && Literal(s.value) ==> r
    ensures rd == Intended && r ==> SubscriptTarget(o, AsWritten, s)
    decreases if rd == Intended then 1 else 0
  {
    match s
    case Triplet(lo, up, st) =>
      ConstantExpr.OptRefines(o.fold, lo);
      ConstantExpr.OptRefines(o.fold, up);
      ConstantExpr.OptRefines(o.fold, st);
      ConstantExpr.OptIsConstant(o.fold, rd, lo) &&
      ConstantExpr.OptIsConstant(o.fold, rd, up) &&
      ConstantExpr.OptIsConstant(o.fold, rd, st)
    case Value(v) =>
      ConstantExpr.ExprRefines(o.fold, v);
      o.rank(v) == 0 && ConstantExpr.ExprIsConstant(o.fold, rd, v)
  }

  function EachSubscriptTarget(o: Oracle, rd: Reading, ss: seq<Subscript>): (rs: seq<bool>)
    ensures |rs| == |ss| && forall i | 0 <= i < |ss| :: rs[i] == SubscriptTarget(o, rd, ss[i])
    ensures rd == Intended && AllOf(rs) ==> forall i | 0 <= i < |ss| :: SubscriptTarget(o, AsWritten, ss[i])
  {
    if ss == [] then [] else [SubscriptTarget(o, rd, ss[0])] + EachSubscriptTarget(o, rd, ss[1..])
  }

  /** Whether a data reference has a coindexed part. */
  predicate Coindexed(r: DataRef) {
    match r
    case SymbolRef(_) => false
    case Component(b, _) => Coindexed(b)
    case ArrayRef(b, _) => Coindexed(b)
    case CoarrayRef(_, _, _, _) => true
  }

  /**
   * The expressions that can designate an initial data target: NULL(), a
   * procedure, or an object designator without a coindexed part, possibly a
   * substring, a complex part or parenthesized.
   */
  predicate Designates(e: Expr) {
    match e
    case NullPointer => true
    case ProcedureDesignator(_) => true
    case Designator(r) => !Coindexed(r)
    case ComplexPart(r) => !Coindexed(r)
    case Substring(p, _, _) => Designates(p)
    case Parentheses(x) => Designates(x)
    case _ => false
  }

  /** Only a designator, NULL() or a procedure can be accepted. */
  function ExprTarget(o: Oracle, rd: Reading, e: Expr): (out: Outcome)
    ensures out.ok ==> Designates(e)
    decreases e
  {
    match e
    case Constant => Rejected
    case BozLiteral => Rejected
    case NullPointer => Accepted
    case StaticDataObject => Rejected
    case Designator(r) => RefTarget(o, rd, r)
    case Substring(p, lo, up) =>
      if ConstantExpr.OptIsConstant(o.fold, rd, lo) && ConstantExpr.OptIsConstant(o.fold, rd, up)
      then ExprTarget(o, rd, p)
      else Rejected
    case ComplexPart(r) => RefTarget(o, rd, r)
    case TypeParamInquiry(_, _) => Rejected
    case DescriptorInquiry(_) => Rejected
    case Parentheses(x) => ExprTarget(o, rd, x)
    case Operation(_) => Rejected
    case IntegerDivide(_, _) => Rejected
    case Relational(_, _) => Rejected
    case FunctionRef(_, _) => Rejected
    case ProcedureDesignator(p) => if p.ProcSymbol? then SymbolTarget(o, p.symbol) else Accepted
    case ArrayConstructor(_) => Rejected
    case StructureConstructor(_, _) => Rejected
  }

  /** A reference with a coindexed part is never accepted. */
  function RefTarget(o: Oracle, rd: Reading, r: DataRef): (out: Outcome)
    ensures out.ok ==> !Coindexed(r)
    decreases r
  {
    match r
    case SymbolRef(s) => SymbolTarget(o, s)
    case Component(b, c) => AndThen(RefTarget(o, rd, b), SymbolTarget(o, c))
    case ArrayRef(b, subs) => AndThen(RefTarget(o, rd, b), Outcome(AllOf(EachSubscriptTarget(o, rd, subs)), []))
    case CoarrayRef(_, _, _, _) => Rejected
  }

  /** The four priorities, one at a time. */
  lemma SymbolPriority(o: Oracle, rd: Reading, s: Symbol)
    ensures var u := o.ultimate(s); var d := RefTarget(o, rd, SymbolRef(s)).diagnostics;
            && (Allocatable in u.attrs ==> d == [AllocatableTarget(u.name)])
            && (Allocatable !in u.attrs && u.corank > 0 ==> d == [CoarrayTarget(u.name)])
            && (Allocatable !in u.attrs && u.corank == 0 && Target !in u.attrs ==> d == [NoTargetAttribute(u.name)])
            && (Allocatable !in u.attrs && u.corank == 0 && Target in u.attrs && !o.isSaved(u) ==> d == [NoSaveAttribute(u.name)])
            && (Allocatable !in u.attrs && u.corank == 0 && Target in u.attrs && o.isSaved(u) ==> d == [])
  {
  }

  /**
   * An array element or section is accepted iff its base is and every
   * subscript is constant, a value subscript being scalar; the subscripts add
   * no message. A component is accepted iff its base is, and its symbol is
   * reported on only when the base is accepted.
   */
  lemma PartRules(o: Oracle, rd: Reading, b: DataRef, subs: seq<Subscript>, c: Symbol)
    ensures var out := RefTarget(o, rd, ArrayRef(b, subs));
            && (out.ok <==> RefTarget(o, rd, b).ok && forall i | 0 <= i < |subs| :: SubscriptTarget(o, rd, subs[i]))
            && out.diagnostics == RefTarget(o, rd, b).diagnostics
    ensures forall i | 0 <= i < |subs| && subs[i].Value? && o.rank(subs[i].value) > 0 ::
              !RefTarget(o, rd, ArrayRef(b, subs)).ok
    ensures var out := RefTarget(o, rd, Component(b, c));
            && (out.ok <==> RefTarget(o, rd, b).ok)
            && out.diagnostics == if RefTarget(o, rd, b).ok
                                  then RefTarget(o, rd, b).diagnostics + SymbolTarget(o, c).diagnostics
                                  else RefTarget(o, rd, b).diagnostics
  {
  }

  /** The node kinds that are never an initial data target, and are rejected silently. */
  predicate NeverTarget(e: Expr) {
    || e.Constant? || e.BozLiteral? || e.StaticDataObject? || e.TypeParamInquiry?
    || (e.Designator? && e.ref.CoarrayRef?) || e.DescriptorInquiry?
    || e.ArrayConstructor? || e.StructureConstructor? || e.FunctionRef?
    || e.Operation? || e.IntegerDivide? || e.Relational?
  }

  lemma ShapeRules(o: Oracle, rd: Reading, e: Expr, x: Expr, p: Expr, lo: Option<Expr>, up: Option<Expr>)
    ensures NeverTarget(e) ==> ExprTarget(o, rd, e) == Rejected
    ensures ExprTarget(o, rd, NullPointer) == Accepted
    ensures ExprTarget(o, rd, Parentheses(x)) == ExprTarget(o, rd, x)
    ensures ExprTarget(o, rd, Substring(p, lo, up)).ok <==>
      ConstantExpr.OptIsConstant(o.fold, rd, lo) && ConstantExpr.OptIsConstant(o.fold, rd, up) &&
      ExprTarget(o, rd, p).ok
  {
  }

  /** The symbols a data reference is built from, base first. */
  function NamedSymbols(r: DataRef): seq<Symbol> {
    match r
    case SymbolRef(s) => [s]
    case Component(b, c) => NamedSymbols(b) + [c]
    case ArrayRef(b, _) => NamedSymbols(b)
    case CoarrayRef(f, path, _, _) => [f] + path
  }

  /** The symbols an expression designates; none when it is not a designator. */
  function DesignatedSymbols(e: Expr): seq<Symbol> {
    match e
    case Designator(r) => NamedSymbols(r)
    case ComplexPart(r) => NamedSymbols(r)
    case Substring(p, _, _) => DesignatedSymbols(p)
    case Parentheses(x) => DesignatedSymbols(x)
    case ProcedureDesignator(p) => if p.ProcSymbol? then [p.symbol] else []
    case _ => []
  }

  /** Message d is the first violation of the ultimate symbol of s. */
  predicate FirstViolationOf(o: Oracle, d: Diagnostic, s: Symbol) {
    var v := Violations(o, o.ultimate(s));
    v != [] && d == v[0]
  }

  /** Message d is the first violation of one of the symbols ss. */
  predicate AboutOneOf(o: Oracle, d: Diagnostic, ss: seq<Symbol>) {
    exists j | 0 <= j < |ss| :: FirstViolationOf(o, d, ss[j])
  }

  /** At most one message per symbol, each the first violation of one of the symbols. */
  predicate ReportsOn(o: Oracle, ds: seq<Diagnostic>, ss: seq<Symbol>) {
    && |ds| <= |ss|
    && forall i | 0 <= i < |ds| :: AboutOneOf(o, ds[i], ss)
  }

  /** Reports on two symbol lists combine into a report on their concatenation. */
  lemma ReportsOnAppend(o: Oracle, d1: seq<Diagnostic>, s1: seq<Symbol>, d2: seq<Diagnostic>, s2: seq<Symbol>)
    requires ReportsOn(o, d1, s1) && ReportsOn(o, d2, s2)
    ensures ReportsOn(o, d1 + d2, s1 + s2)
  {
    var ds, ss := d1 + d2, s1 + s2;
    forall i | 0 <= i < |ds| ensures AboutOneOf(o, ds[i], ss) {
      if i < |d1| {
        var j :| 0 <= j < |s1| && FirstViolationOf(o, d1[i], s1[j]);
        assert ds[i] == d1[i] && ss[j] == s1[j];
        assert FirstViolationOf(o, ds[i], ss[j]);
      } else {
        var j :| 0 <= j < |s2| && FirstViolationOf(o, d2[i - |d1|], s2[j]);
        assert ds[i] == d2[i - |d1|] && ss[|s1| + j] == s2[j];
        assert FirstViolationOf(o, ds[i], ss[|s1| + j]);
      }
    }
  }

  /**
   * Every message the check produces is about a symbol the expression
   * designates: the first violation of its ultimate symbol, at most one
   * message per designated symbol.
   */
  lemma {:induction false} ExprReportsOnDesignated(o: Oracle, rd: Reading, e: Expr)
    ensures ReportsOn(o, ExprTarget(o, rd, e).diagnostics, DesignatedSymbols(e))
    decreases e
  {
    match e
    case Designator(r) => RefReportsOnNamed(o, rd, r);
    case Substring(p, _, _) => ExprReportsOnDesignated(o, rd, p);
    case ComplexPart(r) => RefReportsOnNamed(o, rd, r);
    case Parentheses(x) => ExprReportsOnDesignated(o, rd, x);
    case ProcedureDesignator(p) =>
      if p.ProcSymbol? {
        var ds := SymbolTarget(o, p.symbol).diagnostics;
        assert forall i | 0 <= i < |ds| :: FirstViolationOf(o, ds[i], [p.symbol][0]);
      }
    case _ =>
  }

  lemma {:induction false} RefReportsOnNamed(o: Oracle, rd: Reading, r: DataRef)
    ensures ReportsOn(o, RefTarget(o, rd, r).diagnostics, NamedSymbols(r))
    decreases r
  {
    match r
    case SymbolRef(s) =>
      var ds := SymbolTarget(o, s).diagnostics;
      assert forall i | 0 <= i < |ds| :: FirstViolationOf(o, ds[i], [s][0]);
    case Component(b, c) =>
      RefReportsOnNamed(o, rd, b);
      var sc := SymbolTarget(o, c).diagnostics;
      assert ReportsOn(o, sc, [c]) by {
        assert forall i | 0 <= i < |sc| :: FirstViolationOf(o, sc[i], [c][0]);
      }
      if RefTarget(o, rd, b).ok {
        ReportsOnAppend(o, RefTarget(o, rd, b).diagnostics, NamedSymbols(b), sc, [c]);
      } else {
        ReportsOnAppend(o, RefTarget(o, rd, b).diagnostics, NamedSymbols(b), [], [c]);
        assert RefTarget(o, rd, b).diagnostics + [] == RefTarget(o, rd, b).diagnostics;
      }
    case ArrayRef(b, _) =>
      RefReportsOnNamed(o, rd, b);
      assert RefTarget(o, rd, b).diagnostics + [] == RefTarget(o, rd, b).diagnostics;
    case CoarrayRef(_, _, _, _) =>
  }

  /**
   * The shape verdict does not depend on the attributes that the messages
   * report: changing symbol resolution and the SAVE analysis changes at most
   * the messages.
   */
  lemma {:induction false} VerdictIgnoresAttributes(o: Oracle, rd: Reading, ult: Symbol -> Symbol, saved: Symbol -> bool, e: Expr)
    ensures ExprTarget(o.(ultimate := ult, isSaved := saved), rd, e).ok == ExprTarget(o, rd, e).ok
    decreases e
  {
    match e
    case Designator(r) => RefVerdictIgnoresAttributes(o, rd, ult, saved, r);
    case Substring(p, _, _) => VerdictIgnoresAttributes(o, rd, ult, saved, p);
    case ComplexPart(r) => RefVerdictIgnoresAttributes(o, rd, ult, saved, r);
    case Parentheses(x) => VerdictIgnoresAttributes(o, rd, ult, saved, x);
    case _ =>
  }

  lemma {:induction false} RefVerdictIgnoresAttributes(o: Oracle, rd: Reading, ult: Symbol -> Symbol, saved: Symbol -> bool, r: DataRef)
    ensures RefTarget(o.(ultimate := ult, isSaved := saved), rd, r).ok == RefTarget(o, rd, r).ok
    decreases r
  {
    var o' := o.(ultimate := ult, isSaved := saved);
    match r
    case Component(b, _) => RefVerdictIgnoresAttributes(o, rd, ult, saved, b);
    case ArrayRef(b, subs) =>
      RefVerdictIgnoresAttributes(o, rd, ult, saved, b);
      assert EachSubscriptTarget(o', rd, subs) == EachSubscriptTarget(o, rd, subs);
    case _ =>
  }

  /** A rank-1 TARGET array a, the variable n, and the subscript n / 2 used in the witness below. */
  function ArrayA(): Symbol {
    Symbol("a", {Target}, ObjectEntity(ObjectDetails(false, false, false, false)), 1, 0, 1, false)
  }

  function VariableN(): Symbol {
    Symbol("n", {}, ObjectEntity(ObjectDetails(false, false, false, false)), 0, 0, 1, false)
  }

  function HalfOfN(): Expr {
    IntegerDivide(Designator(SymbolRef(VariableN())), Constant)
  }

  /** An oracle under which every symbol is saved, only the literal folds (to 2), and every expression is scalar. */
  function HalvingOracle(): Oracle {
    Oracle(s => s, s => true, s => true, (e: Expr) => if e == Constant then Some(2) else None,
           e => 0, e => true, p => None)
  }

  lemma HalfOfNConstantOnlyAsWritten()
    ensures ConstantExpr.ExprIsConstant(HalvingOracle().fold, AsWritten, HalfOfN())
    ensures !ConstantExpr.ExprIsConstant(HalvingOracle().fold, Intended, HalfOfN())
  {
    var n := Designator(SymbolRef(VariableN()));
    assert ConstantExpr.ExprIsConstant(HalvingOracle().fold, AsWritten, HalfOfN()) ==
      ConstantExpr.DivisionIsConstant(HalvingOracle().fold, AsWritten, n, Constant);
    assert ConstantExpr.ExprIsConstant(HalvingOracle().fold, Intended, HalfOfN()) ==
      ConstantExpr.DivisionIsConstant(HalvingOracle().fold, Intended, n, Constant);
    assert ConstantExpr.ExprIsConstant(HalvingOracle().fold, Intended, n) ==
      ConstantExpr.RefIsConstant(HalvingOracle().fold, Intended, SymbolRef(VariableN()));
  }

  /**
   * The constant-division defect reaches this check: as written, a(n / 2)
   * with n a plain variable is an initial data target; as intended it is not.
   */
  lemma HalvedSubscriptAcceptedAsWritten()
    ensures var e := Designator(ArrayRef(SymbolRef(ArrayA()), [Value(HalfOfN())]));
            ExprTarget(HalvingOracle(), AsWritten, e) == Accepted && ExprTarget(HalvingOracle(), Intended, e) == Rejected
  {
    var o := HalvingOracle();
    HalfOfNConstantOnlyAsWritten();
    assert SymbolTarget(o, ArrayA()) == Accepted;
    assert EachSubscriptTarget(o, AsWritten, [Value(HalfOfN())]) == [true];
    assert EachSubscriptTarget(o, Intended, [Value(HalfOfN())]) == [false];
  }

  /** The check as the source runs it, appending each message to the sink as it goes. */
  method IsInitialDataTarget(o: Oracle, rd: Reading, e: Expr, messages: Messages) returns (ok: bool)
    modifies messages
    ensures ok == ExprTarget(o, rd, e).ok
    ensures messages.said == old(messages.said) + ExprTarget(o, rd, e).diagnostics
    decreases e
  {
    match e
    case Designator(r) =>
      ok := CheckRef(o, rd, r, messages);
    case Substring(p, lo, up) =>
      if ConstantExpr.OptIsConstant(o.fold, rd, lo) && ConstantExpr.OptIsConstant(o.fold, rd, up) {
        ok := IsInitialDataTarget(o, rd, p, messages);
      } else {
        ok := false;
      }
    case ComplexPart(r) =>
      ok := CheckRef(o, rd, r, messages);
    case Parentheses(x) =>
      ok := IsInitialDataTarget(o, rd, x, messages);
    case ProcedureDesignator(p) =>
      if p.ProcSymbol? {
        ok := CheckSymbol(o, p.symbol, messages);
      } else {
        ok := true;
      }
    case NullPointer =>
      ok := true;
    case _ =>
      ok := false;
  }

  method CheckRef(o: Oracle, rd: Reading, r: DataRef, messages: Messages) returns (ok: bool)
    modifies messages
    ensures ok == RefTarget(o, rd, r).ok
    ensures messages.said == old(messages.said) + RefTarget(o, rd, r).diagnostics
    decreases r
  {
    match r
    case SymbolRef(s) =>
      ok := CheckSymbol(o, s, messages);
    case Component(b, c) =>
      ok := CheckRef(o, rd, b, messages);
      if ok {
        ok := CheckSymbol(o, c, messages);
      }
    case ArrayRef(b, subs) =>
      ok := CheckRef(o, rd, b, messages);
      if ok {
        ok := AllOf(EachSubscriptTarget(o, rd, subs));
      }
    case CoarrayRef(_, _, _, _) =>
      ok := false;
  }

  method CheckSymbol(o: Oracle, s: Symbol, messages: Messages) returns (ok: bool)
    modifies messages
    ensures ok == SymbolTarget(o, s).ok
    ensures messages.said == old(messages.said) + SymbolTarget(o, s).diagnostics
  {
    var u := o.ultimate(s);
    if Allocatable in u.attrs {
      messages.Say(AllocatableTarget(u.name));
    } else if u.corank > 0 {
      messages.Say(CoarrayTarget(u.name));
    } else if Target !in u.attrs {
      messages.Say(NoTargetAttribute(u.name));
    } else if !o.isSaved(u) {
      messages.Say(NoSaveAttribute(u.name));
    }
    ok := true;
  }
}
