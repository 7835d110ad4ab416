/**
 * The expression tree of the Fortran front end, as the four checks see it,
 * together with the read-only symbol records and the external queries the
 * checks make of the rest of the compiler.
 */
module Expressions {
  import opened Wrappers

  /** Scopes are named by the order in which they were created. */
  type ScopeId = nat

  /** The declared attributes the checks test. */
  datatype Attr = Parameter | Allocatable | Target | Contiguous | Optional | IntentOut | Pointer

  /** What an ObjectEntityDetails record knows about a data object. */
  datatype ObjectDetails = ObjectDetails(
    isDummy: bool,
    inCommonBlock: bool,
    assumedShape: bool,
    assumedRank: bool)

  /** The variant of a symbol's details. */
  datatype Details =
    | ObjectEntity(obj: ObjectDetails)
    | Entity(entityDummy: bool)           // declared, not yet known to be an object or a procedure
    | ProcEntity(procDummy: bool)
    | UseAssociation
    | HostAssociation
    | OtherDetails

  /** A symbol, read through the queries the checks make of it. */
  datatype Symbol = Symbol(
    name: string,
    attrs: set<Attr>,
    details: Details,
    rank: nat,
    corank: nat,
    owner: ScopeId,
    impliedDoIndex: bool)
  {
    predicate IsDummy() {
      match details
      case ObjectEntity(d) => d.isDummy
      case Entity(d) => d
      case ProcEntity(d) => d
      case _ => false
    }

    predicate IsNamedConstant() {
      Parameter in attrs
    }

    predicate IsObject() {
      details.ObjectEntity?
    }
  }

  /** A type parameter is either a KIND or a LEN parameter. */
  datatype TypeParamAttr = Kind | Len

  /** The procedure a call invokes: a specific intrinsic or a procedure symbol. */
  datatype ProcDesignator = Intrinsic(intrinsicName: string) | ProcSymbol(symbol: Symbol)

  /** A derived-type parameter value; only an explicit one carries an expression. */
  datatype ParamValue = Explicit(explicit: Expr) | NotExplicit

  /** One subscript of an array or coarray reference; an absent stride stands for 1. */
  datatype Subscript =
    | Value(value: Expr)
    | Triplet(lower: Option<Expr>, upper: Option<Expr>, stride: Option<Expr>)

  /**
   * A data reference. The base of an ArrayRef is a symbol or a component;
   * a CoarrayRef names its first symbol and the component path after it.
   */
  datatype DataRef =
    | SymbolRef(symbol: Symbol)
    | Component(base: DataRef, component: Symbol)
    | ArrayRef(base: DataRef, subscripts: seq<Subscript>)
    | CoarrayRef(first: Symbol, path: seq<Symbol>, subscripts: seq<Subscript>, cosubscripts: seq<Expr>)
  {
    /** The symbol named last in the reference. */
    function LastSymbol(): Symbol {
      match this
      case SymbolRef(s) => s
      case Component(_, c) => c
      case ArrayRef(b, _) => b.LastSymbol()
      case CoarrayRef(f, p, _, _) => if p == [] then f else p[|p| - 1]
    }
  }

  /**
   * The node kinds of an expression. Children of array and structure
   * constructors are listed in the order the walks visit them.
   */
  datatype Expr =
    | Constant
    | BozLiteral
    | NullPointer
    | StaticDataObject
    | Designator(ref: DataRef)
    | Substring(parent: Expr, lower: Option<Expr>, upper: Option<Expr>)
    | ComplexPart(complex: DataRef)
    | TypeParamInquiry(param: TypeParamAttr, inquired: Option<DataRef>)
    | DescriptorInquiry(described: DataRef)
    | Parentheses(operand: Expr)
    | Operation(operands: seq<Expr>)
    | IntegerDivide(dividend: Expr, divisor: Expr)
    | Relational(left: Expr, right: Expr)
    | FunctionRef(proc: ProcDesignator, arguments: seq<Option<Expr>>)
    | ProcedureDesignator(designated: ProcDesignator)
    | ArrayConstructor(values: seq<Expr>)
    | StructureConstructor(parameters: seq<ParamValue>, components: seq<Expr>)

  /** The characteristics of a function result that contiguity looks at. */
  datatype FunctionResult = FunctionResult(isProcedurePointer: bool, pointer: bool, contiguous: bool)

  /**
   * The queries the checks make of the rest of the compiler, which this model
   * takes as given: symbol resolution through association, the SAVE analysis,
   * purity, folding an expression to an integer constant, the rank of an
   * expression, whether it designates a variable, and procedure
   * characterization (None when the procedure has no function result).
   */
  datatype Oracle = Oracle(
    ultimate: Symbol -> Symbol,
    isSaved: Symbol -> bool,
    isPure: Symbol -> bool,
    fold: Expr -> Option<int>,
    rank: Expr -> nat,
    isVariable: Expr -> bool,
    characterize: ProcDesignator -> Option<FunctionResult>)

  /**
   * Where the source visibly departs from what its authors meant, a check is
   * modelled both ways: as the code is written and as it was intended.
   */
  datatype Reading = AsWritten | Intended

  /**
   * Expressions built only from literals: typed constants, BOZ literals, the
   * null pointer, operations other than integer division, parentheses,
   * relations, and constructors whose parts are all literal.
   */
  predicate Literal(e: Expr)
    decreases e
  {
    match e
    case Constant => true
    case BozLiteral => true
    case NullPointer => true
    case Parentheses(x) => Literal(x)
    case Operation(xs) => forall i | 0 <= i < |xs| :: Literal(xs[i])
    case Relational(l, r) => Literal(l) && Literal(r)
    case ArrayConstructor(vs) => forall i | 0 <= i < |vs| :: Literal(vs[i])
    case StructureConstructor(ps, vs) =>
      (forall i | 0 <= i < |ps| :: ps[i].Explicit? && Literal(ps[i].explicit)) &&
      (forall i | 0 <= i < |vs| :: Literal(vs[i]))
    case _ => false
  }
}
