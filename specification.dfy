/**
 * CheckSpecificationExpr: searches an expression for a reason why it is not a
 * valid specification expression (section 10.1.11(2) and constraint C1010 of
 * Fortran 2018). A search walk: a node without a rule of its own yields the
 * first reason found among its children, left to right.
 */
module SpecificationExpr {
  import opened Wrappers
  import opened Expressions
  import opened Traverse
  import opened Scopes
  import opened Diagnostics
  import ConstantExpr

  /** Why an expression is not a specification expression. */
  datatype Reason =
    | DummyProcedureArgument
    | CoindexedReference
    | OptionalDummy(name: string)
    | IntentOutDummy(name: string)
    | LocalEntity(name: string)
    | ImpureFunction(name: string)

  /** The reason's text, as the check reports it. */
  function Text(r: Reason): string {
    match r
    case DummyProcedureArgument => "dummy procedure argument"
    case CoindexedReference => "coindexed reference"
    case OptionalDummy(n) => "reference to OPTIONAL dummy argument '" + n + "'"
    case IntentOutDummy(n) => "reference to INTENT(OUT) dummy argument '" + n + "'"
    case LocalEntity(n) => "reference to local entity '" + n + "'"
    case ImpureFunction(n) => "reference to impure function '" + n + "'"
  }

  /** The scope tree and the scope in which the expression is checked. */
  datatype Context = Context(tree: ScopeTree, scope: ScopeId)

  predicate ValidContext(ctx: Context) {
    Valid(ctx.tree) && ctx.scope in ctx.tree.kind
  }

  /** The symbol rule: a reason it gives is about the symbol, by name, unless it is a dummy procedure. */
  function SymbolReason(ctx: Context, s: Symbol): (r: Option<Reason>)
    requires ValidContext(ctx)
    ensures r.Some? ==> r.value == DummyProcedureArgument || NamesSymbol(r.value, s.name)
  {
    if s.IsNamedConstant() then None
    else if s.IsDummy() then
      if Optional in s.attrs then Some(OptionalDummy(s.name))
      else if IntentOut in s.attrs then Some(IntentOutDummy(s.name))
      else if s.IsObject() then None
      else Some(DummyProcedureArgument)
    else if s.details.UseAssociation? || s.details.HostAssociation? || KindIs(ctx.tree, s.owner, Module) then None
    else if s.IsObject() && s.details.obj.inCommonBlock then None
    else if OwnerIsProperAncestor(ctx.tree, ctx.scope, s.owner) then None
    else Some(LocalEntity(s.name))
  }

  /** The walk over an expression: a literal expression has no reason against it. */
  function ExprReason(ctx: Context, o: Oracle, e: Expr): (r: Option<Reason>)
    requires ValidContext(ctx)
    ensures Literal(e) ==> r == None
    decreases e, 1
  {
    match e
    case Constant => None
    case BozLiteral => None
    case NullPointer => None
    case StaticDataObject => None
    case Designator(r) => RefReason(ctx, o, r)
    case Substring(p, lo, up) => OrElse(ExprReason(ctx, o, p), OrElse(OptReason(ctx, o, lo), OptReason(ctx, o, up)))
    case ComplexPart(r) => RefReason(ctx, o, r)
    case TypeParamInquiry(_, base) => if base.Some? then RefReason(ctx, o, base.value) else None
    case DescriptorInquiry(_) => None
    case Parentheses(x) => ExprReason(ctx, o, x)
    case Operation(xs) => FirstFound(EachReason(ctx, o, xs))
    case IntegerDivide(l, r) => OrElse(ExprReason(ctx, o, l), ExprReason(ctx, o, r))
    case Relational(l, r) => OrElse(ExprReason(ctx, o, l), ExprReason(ctx, o, r))
    case FunctionRef(p, args) => CallReason(ctx, o, p, args)
    case ProcedureDesignator(_) => Some(DummyProcedureArgument)
    case ArrayConstructor(vs) => FirstFound(EachReason(ctx, o, vs))
    case StructureConstructor(ps, vs) => OrElse(FirstFound(EachParamReason(ctx, o, ps)), FirstFound(EachReason(ctx, o, vs)))
  }

  /**
   * A call of a procedure symbol needs a pure procedure; PRESENT, and an
   * intrinsic call that is itself constant, are valid whatever their
   * arguments; otherwise the first reason among the arguments.
   */
  function CallReason(ctx: Context, o: Oracle, p: ProcDesignator, args: seq<Option<Expr>>): (r: Option<Reason>)
    requires ValidContext(ctx)
    ensures r.Some? ==>
      (p.ProcSymbol? && r.value == ImpureFunction(p.symbol.name)) ||
      exists k | 0 <= k < |args| :: OptReason(ctx, o, args[k]) == r
    decreases FunctionRef(p, args), 0
  {
    match p
    case ProcSymbol(s) =>
      if !o.isPure(s) then Some(ImpureFunction(s.name)) else FirstFound(EachArgumentReason(ctx, o, args))
    case Intrinsic(name) =>
      if name == "present" then None
      else if ConstantExpr.IsConstantExpr(o.fold, FunctionRef(p, args)) then None
      else FirstFound(EachArgumentReason(ctx, o, args))
  }

  function RefReason(ctx: Context, o: Oracle, r: DataRef): Option<Reason>
    requires ValidContext(ctx)
    decreases r, 1
  {
    match r
    case SymbolRef(s) => SymbolReason(ctx, s)
    case Component(b, _) => RefReason(ctx, o, b)
    case ArrayRef(b, subs) => OrElse(RefReason(ctx, o, b), FirstFound(EachSubscriptReason(ctx, o, subs)))
    case CoarrayRef(_, _, _, _) => Some(CoindexedReference)
  }

  function SubscriptReason(ctx: Context, o: Oracle, s: Subscript): Option<Reason>
    requires ValidContext(ctx)
    decreases s, 1
  {
    match s
    case Value(v) => ExprReason(ctx, o, v)
    case Triplet(lo, up, st) => OrElse(OptReason(ctx, o, lo), OrElse(OptReason(ctx, o, up), OptReason(ctx, o, st)))
  }

  function OptReason(ctx: Context, o: Oracle, oe: Option<Expr>): Option<Reason>
    requires ValidContext(ctx)
    decreases oe, 1
  {
    if oe.Some? then ExprReason(ctx, o, oe.value) else None
  }

  function ParamReason(ctx: Context, o: Oracle, p: ParamValue): (r: Option<Reason>)
    requires ValidContext(ctx)
    ensures p.Explicit? && Literal(p.explicit) ==> r == None
    decreases p, 1
  {
    if p.Explicit? then ExprReason(ctx, o, p.explicit) else None
  }

  function EachReason(ctx: Context, o: Oracle, es: seq<Expr>): (rs: seq<Option<Reason>>)
    requires ValidContext(ctx)
    ensures |rs| == |es| && forall i | 0 <= i < |es| :: rs[i] == ExprReason(ctx, o, es[i])
    ensures (forall i | 0 <= i < |es| :: Literal(es[i])) ==> FirstFound(rs) == None
    decreases es, 0
  {
    if es == [] then [] else [ExprReason(ctx, o, es[0])] + EachReason(ctx, o, es[1..])
  }

  function EachArgumentReason(ctx: Context, o: Oracle, args: seq<Option<Expr>>): (rs: seq<Option<Reason>>)
    requires ValidContext(ctx)
    ensures |rs| == |args| && forall i | 0 <= i < |args| :: rs[i] == OptReason(ctx, o, args[i])
    decreases args, 0
  {
    if args == [] then [] else [OptReason(ctx, o, args[0])] + EachArgumentReason(ctx, o, args[1..])
  }

  function EachSubscriptReason(ctx: Context, o: Oracle, ss: seq<Subscript>): (rs: seq<Option<Reason>>)
    requires ValidContext(ctx)
    ensures |rs| == |ss| && forall i | 0 <= i < |ss| :: rs[i] == SubscriptReason(ctx, o, ss[i])
    decreases ss, 0
  {
    if ss == [] then [] else [SubscriptReason(ctx, o, ss[0])] + EachSubscriptReason(ctx, o, ss[1..])
  }

  function EachParamReason(ctx: Context, o: Oracle, ps: seq<ParamValue>): (rs: seq<Option<Reason>>)
    requires ValidContext(ctx)
    ensures |rs| == |ps| && forall i | 0 <= i < |ps| :: rs[i] == ParamReason(ctx, o, ps[i])
    ensures (forall i | 0 <= i < |ps| :: ps[i].Explicit? && Literal(ps[i].explicit)) ==> FirstFound(rs) == None
    decreases ps, 0
  {
    if ps == [] then [] else [ParamReason(ctx, o, ps[0])] + EachParamReason(ctx, o, ps[1..])
  }

  /** The check as the source runs it: one message when a reason is found. */
  method CheckSpecificationExpr(ctx: Context, o: Oracle, e: Expr, messages: Messages)
    requires ValidContext(ctx)
    modifies messages
    ensures messages.said == old(messages.said) +
      (if ExprReason(ctx, o, e).Some? then [InvalidSpecification(Text(ExprReason(ctx, o, e).value))] else [])
  {
    var why := ExprReason(ctx, o, e);
    if why.Some? {
      messages.Say(InvalidSpecification(Text(why.value)));
    }
  }

  /** The name a reason is about, where it is about one. */
  predicate NamesSymbol(r: Reason, name: string) {
    match r
    case OptionalDummy(n) => n == name
    case IntentOutDummy(n) => n == name
    case LocalEntity(n) => n == name
    case ImpureFunction(n) => n == name
    case _ => false
  }

  /** Whether text t holds name, in single quotes, at position k. */
  predicate QuotesAt(t: string, name: string, k: nat) {
    k + |name| + 2 <= |t| && t[k..k + |name| + 2] == "'" + name + "'"
  }

  /** A reason about a symbol quotes its name. */
  lemma TextQuotesName(r: Reason, name: string)
    requires NamesSymbol(r, name)
    ensures exists k: nat :: QuotesAt(Text(r), name, k)
  {
    var t := Text(r);
    var k := |t| - |name| - 2;
    assert QuotesAt(t, name, k);
  }

  /** The rules for a symbol that is a named constant or a dummy argument. */
  lemma DummyRules(ctx: Context, o: Oracle, s: Symbol)
    requires ValidContext(ctx)
    ensures var r := ExprReason(ctx, o, Designator(SymbolRef(s)));
            && (s.IsNamedConstant() ==> r == None)
            && (!s.IsNamedConstant() && s.IsDummy() ==>
                  r == if Optional in s.attrs then Some(OptionalDummy(s.name))
                       else if IntentOut in s.attrs then Some(IntentOutDummy(s.name))
                       else if s.IsObject() then None
                       else Some(DummyProcedureArgument))
  {
    assert ExprReason(ctx, o, Designator(SymbolRef(s))) == SymbolReason(ctx, s);
  }

  /** Associated symbols, module entities and COMMON objects are valid. */
  lemma AssociatedRules(ctx: Context, o: Oracle, s: Symbol)
    requires ValidContext(ctx)
    requires !s.IsNamedConstant() && !s.IsDummy()
    requires || s.details.UseAssociation? || s.details.HostAssociation?
             || KindIs(ctx.tree, s.owner, Module)
             || (s.IsObject() && s.details.obj.inCommonBlock)
    ensures ExprReason(ctx, o, Designator(SymbolRef(s))) == None
  {
    assert ExprReason(ctx, o, Designator(SymbolRef(s))) == SymbolReason(ctx, s);
  }

  /**
   * Any other symbol is valid exactly when its owner is met on the walk out
   * from the checking scope; so one owned by the checking scope itself is a
   * local entity, and one owned by its parent is valid.
   */
  lemma ScopeRule(ctx: Context, o: Oracle, s: Symbol)
    requires ValidContext(ctx)
    requires !s.IsNamedConstant() && !s.IsDummy()
    requires !s.details.UseAssociation? && !s.details.HostAssociation? && !KindIs(ctx.tree, s.owner, Module)
    requires !(s.IsObject() && s.details.obj.inCommonBlock)
    ensures ExprReason(ctx, o, Designator(SymbolRef(s))) == None <==> OwnerIsProperAncestor(ctx.tree, ctx.scope, s.owner)
    ensures s.owner == ctx.scope ==> ExprReason(ctx, o, Designator(SymbolRef(s))) == Some(LocalEntity(s.name))
    ensures !IsGlobal(ctx.tree, ctx.scope) && s.owner == ctx.tree.parent[ctx.scope] ==>
      ExprReason(ctx, o, Designator(SymbolRef(s))) == None
  {
    assert ExprReason(ctx, o, Designator(SymbolRef(s))) == SymbolReason(ctx, s);
    NeverOwnAncestor(ctx.tree, ctx.scope);
  }

  /** The rules for calls and components. */
  lemma CallRules(ctx: Context, o: Oracle, s: Symbol, name: string, args: seq<Option<Expr>>, b: DataRef, c: Symbol)
    requires ValidContext(ctx)
    ensures !o.isPure(s) ==> ExprReason(ctx, o, FunctionRef(ProcSymbol(s), args)) == Some(ImpureFunction(s.name))
    ensures o.isPure(s) ==>
      ExprReason(ctx, o, FunctionRef(ProcSymbol(s), args)) == FirstFound(EachArgumentReason(ctx, o, args))
    ensures ExprReason(ctx, o, FunctionRef(Intrinsic("present"), args)) == None
    ensures ExprReason(ctx, o, FunctionRef(Intrinsic("kind"), args)) == None
    ensures name != "present" && name != "kind" ==>
      ExprReason(ctx, o, FunctionRef(Intrinsic(name), args)) == FirstFound(EachArgumentReason(ctx, o, args))
    ensures ExprReason(ctx, o, Designator(Component(b, c))) == ExprReason(ctx, o, Designator(b))
  {
    assert ExprReason(ctx, o, FunctionRef(ProcSymbol(s), args)) == CallReason(ctx, o, ProcSymbol(s), args);
    assert ExprReason(ctx, o, FunctionRef(Intrinsic("present"), args)) == CallReason(ctx, o, Intrinsic("present"), args);
    assert ConstantExpr.IsConstantExpr(o.fold, FunctionRef(Intrinsic("kind"), args));
    assert ExprReason(ctx, o, FunctionRef(Intrinsic("kind"), args)) == CallReason(ctx, o, Intrinsic("kind"), args);
    if name != "present" && name != "kind" {
      assert !ConstantExpr.IsConstantExpr(o.fold, FunctionRef(Intrinsic(name), args));
      assert ExprReason(ctx, o, FunctionRef(Intrinsic(name), args)) == CallReason(ctx, o, Intrinsic(name), args);
    }
    assert ExprReason(ctx, o, Designator(Component(b, c))) == RefReason(ctx, o, Component(b, c));
  }

  /** Coindexed references and procedure designators are invalid; descriptor inquiries are valid. */
  lemma NodeRules(ctx: Context, o: Oracle, f: Symbol, path: seq<Symbol>, subs: seq<Subscript>, cos: seq<Expr>,
                  p: ProcDesignator, r: DataRef)
    requires ValidContext(ctx)
    ensures ExprReason(ctx, o, Designator(CoarrayRef(f, path, subs, cos))) == Some(CoindexedReference)
    ensures ExprReason(ctx, o, ProcedureDesignator(p)) == Some(DummyProcedureArgument)
    ensures ExprReason(ctx, o, DescriptorInquiry(r)) == None
  {
    assert ExprReason(ctx, o, Designator(CoarrayRef(f, path, subs, cos))) == RefReason(ctx, o, CoarrayRef(f, path, subs, cos));
  }

  /** A call's reason, when it comes from the arguments, is the first argument's reason in order. */
  lemma FirstArgumentReason(ctx: Context, o: Oracle, s: Symbol, args: seq<Option<Expr>>, k: nat)
    requires ValidContext(ctx) && o.isPure(s)
    requires k < |args| && OptReason(ctx, o, args[k]).Some?
    requires forall j | 0 <= j < k :: OptReason(ctx, o, args[j]).None?
    ensures ExprReason(ctx, o, FunctionRef(ProcSymbol(s), args)) == OptReason(ctx, o, args[k])
  {
    FirstFoundAt(EachArgumentReason(ctx, o, args), k);
  }

  /**
   * An expression that is valid in a scope stays valid in every scope nested
   * inside it: the nested scope's walk outward meets every scope the outer
   * scope's walk meets, and the outer scope itself.
   */
  predicate Nested(outer: Context, inner: Context) {
    && ValidContext(outer) && ValidContext(inner) && inner.tree == outer.tree
    && OwnerIsProperAncestor(inner.tree, inner.scope, outer.scope)
  }

  lemma SymbolValidNested(outer: Context, inner: Context, s: Symbol)
    requires Nested(outer, inner) && SymbolReason(outer, s) == None
    ensures SymbolReason(inner, s) == None
  {
    if OwnerIsProperAncestor(outer.tree, outer.scope, s.owner) {
      AncestorTransitive(inner.tree, inner.scope, outer.scope, s.owner);
    }
  }

  lemma {:induction false} ExprValidNested(outer: Context, inner: Context, o: Oracle, e: Expr)
    requires Nested(outer, inner) && ExprReason(outer, o, e) == None
    ensures ExprReason(inner, o, e) == None
    decreases e
  {
    match e
    case Designator(r) => RefValidNested(outer, inner, o, r);
    case Substring(p, lo, up) =>
      ExprValidNested(outer, inner, o, p);
      OptValidNested(outer, inner, o, lo);
      OptValidNested(outer, inner, o, up);
    case ComplexPart(r) => RefValidNested(outer, inner, o, r);
    case TypeParamInquiry(_, base) =>
      if base.Some? {
        RefValidNested(outer, inner, o, base.value);
      }
    case Parentheses(x) => ExprValidNested(outer, inner, o, x);
    case Operation(xs) => EachValidNested(outer, inner, o, xs);
    case IntegerDivide(l, r) =>
      ExprValidNested(outer, inner, o, l);
      ExprValidNested(outer, inner, o, r);
    case Relational(l, r) =>
      ExprValidNested(outer, inner, o, l);
      ExprValidNested(outer, inner, o, r);
    case FunctionRef(p, args) =>
      assert ExprReason(outer, o, e) == CallReason(outer, o, p, args);
      assert ExprReason(inner, o, e) == CallReason(inner, o, p, args);
      if FirstFound(EachArgumentReason(outer, o, args)) == None {
        forall i | 0 <= i < |args| ensures OptReason(inner, o, args[i]) == None {
          OptValidNested(outer, inner, o, args[i]);
        }
      }
    case ArrayConstructor(vs) => EachValidNested(outer, inner, o, vs);
    case StructureConstructor(ps, vs) =>
      forall i | 0 <= i < |ps| ensures ParamReason(inner, o, ps[i]) == None {
        if ps[i].Explicit? {
          ExprValidNested(outer, inner, o, ps[i].explicit);
        }
      }
      EachValidNested(outer, inner, o, vs);
    case _ =>
  }

  lemma {:induction false} RefValidNested(outer: Context, inner: Context, o: Oracle, r: DataRef)
    requires Nested(outer, inner) && RefReason(outer, o, r) == None
    ensures RefReason(inner, o, r) == None
    decreases r
  {
    match r
    case SymbolRef(s) => SymbolValidNested(outer, inner, s);
    case Component(b, _) => RefValidNested(outer, inner, o, b);
    case ArrayRef(b, subs) =>
      RefValidNested(outer, inner, o, b);
      forall i | 0 <= i < |subs| ensures SubscriptReason(inner, o, subs[i]) == None {
        match subs[i]
        case Value(v) => ExprValidNested(outer, inner, o, v);
        case Triplet(lo, up, st) =>
          OptValidNested(outer, inner, o, lo);
          OptValidNested(outer, inner, o, up);
          OptValidNested(outer, inner, o, st);
      }
    case CoarrayRef(_, _, _, _) =>
  }

  lemma {:induction false} OptValidNested(outer: Context, inner: Context, o: Oracle, oe: Option<Expr>)
    requires Nested(outer, inner) && OptReason(outer, o, oe) == None
    ensures OptReason(inner, o, oe) == None
    decreases oe
  {
    if oe.Some? {
      ExprValidNested(outer, inner, o, oe.value);
    }
  }

  lemma {:induction false} EachValidNested(outer: Context, inner: Context, o: Oracle, es: seq<Expr>)
    requires Nested(outer, inner) && FirstFound(EachReason(outer, o, es)) == None
    ensures FirstFound(EachReason(inner, o, es)) == None
    decreases es
  {
    forall i | 0 <= i < |es| ensures ExprReason(inner, o, es[i]) == None {
      ExprValidNested(outer, inner, o, es[i]);
    }
  }
}
