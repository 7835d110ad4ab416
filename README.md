# Static expression checks of the Fortran front end, in Dafny

This project models `flang/lib/Evaluate/check-expression.cpp`. That file holds four read-only
checks over an expression tree of the Fortran front end:

- **IsConstantExpr**: is the expression a constant expression under section 10.1.12 of Fortran 2018?
- **IsInitialDataTarget**: may the expression initialise a pointer with `=> x` (constraint C765)?
  For a symbol it also reports, on a message sink, the first of four attribute violations.
- **CheckSpecificationExpr**: why, if at all, is the expression not a specification expression
  (section 10.1.11(2), constraint C1010)? Checking a symbol walks the scope chain outward.
- **IsSimplyContiguous**: is a variable reference simply contiguous (section 9.5.4)? The check
  answers true, false or "unknown", and its core is the subscript scan `CheckSubscripts`.

Each check plugs into one of two generic walks:

- **Conjunction walk.** An unhandled node is the AND of its children, and a node without children is true.
- **Search walk.** An unhandled node yields its first child result, left to right, that is present.

Module layout:

- `Expressions`: the closed expression tree (`Expr`, `DataRef`, `Subscript`, `ProcDesignator`,
  `ParamValue`), symbols as records of attributes, and the `Oracle`. The `Oracle` holds the
  compiler's answers to queries the checks only read: ultimate symbol, SAVE analysis, purity,
  folding to an integer, rank, is-a-variable, and procedure characterization.
- `Traverse`: the two walk combinators.
- `Scopes`: the scope tree and the scope-chain walk.
- `Diagnostics`: the append-only message sink, a class.
- `ConstantExpr`, `InitialDataTarget`, `SpecificationExpr`, `SimplyContiguous`: the four checks.

The code as written has evident defects in two of the checks, listed under "## Findings". For
each one, the check takes a `Reading` (`AsWritten` or `Intended`). The entry points
`IsConstantExpr` and `IsSimplyContiguous` use the intended reading. `IsInitialDataTarget` calls the
constant-expression classifier on subscripts and substring bounds (lines 109-124). It therefore
takes a `Reading` of its own, and the source as written corresponds to `AsWritten`. Every rule
stated for it below holds under either reading. `CheckSpecificationExpr` asks the classifier only
whether an intrinsic call is constant (line 228), and there the two readings agree: a call is
constant iff it calls "kind" (`ConstantExpr.LeafRules`, for either reading).

The division rule says more than its comment: an integer division whose divisor cannot be folded
is not constant (lines 53-57), although the comment at line 48 speaks only of division by zero.

`CheckSubscripts` counts every triplet (line 341), so `(:, :, 1:5)` has rank 3.

## Model

| member | source | states |
|---|---|---|
| `Traverse.AllOf` | flang/lib/Evaluate/check-expression.cpp:23-25 | the conjunction walk's default is true exactly when every child result is true (true with no children) |
| `Traverse.FirstFound` | flang/lib/Evaluate/check-expression.cpp:154-159 | the search walk's default is absent iff every child result is absent; otherwise it is the result of a child before which all are absent |
| `Traverse.FirstFoundAppend` | flang/lib/Evaluate/check-expression.cpp:154-159 | searching a concatenation searches the first part and only then the second, so children are searched strictly left to right |
| `Traverse.FirstFoundAt` | flang/lib/Evaluate/check-expression.cpp:263-267 | the search walk's result is the child at the first index whose result is present |
| `ConstantExpr.ExprIsConstant` | flang/lib/Evaluate/check-expression.cpp:23-59 | under either reading, an expression built only from literals, operations, relations and constructors is constant |
| `ConstantExpr.LeafRules` | flang/lib/Evaluate/check-expression.cpp:29-46 | under either reading: a symbol is constant iff it is a PARAMETER or an implied-DO index; a coarray reference never is; a type-parameter inquiry is iff it inquires a KIND parameter; a call is iff it calls the intrinsic "kind" |
| `ConstantExpr.DivisionRule` | flang/lib/Evaluate/check-expression.cpp:48-58 | an integer division is constant iff its divisor folds to a nonzero value and its dividend is constant; as written, iff the divisor folds to nonzero |
| `ConstantExpr.DefaultIsConjunction` | flang/lib/Evaluate/check-expression.cpp:23-27 | under either reading, parentheses are transparent, and an operation is constant iff every operand is |
| `ConstantExpr.ExprRefines` | flang/lib/Evaluate/check-expression.cpp:48-58 | every expression the corrected division rule accepts, the code as written accepts too |
| `ConstantExpr.IsConstantExpr` | flang/lib/Evaluate/check-expression.cpp:61-63 | the classifier accepts every literal expression, and only expressions the code as written also accepts |
| `ConstantExpr.IsConstantExprAsWritten` | flang/lib/Evaluate/check-expression.cpp:61-63 | the classifier as written accepts every literal expression |
| `ConstantExpr.VariableDividendAccepted` | flang/lib/Evaluate/check-expression.cpp:53-57 | `x / 3`, with x a plain variable, is constant as written and not constant as intended |
| `Scopes.FindOwnerInEnclosingScopes` | flang/lib/Evaluate/check-expression.cpp:196-201 | the loop that steps to the parent before comparing, until it stands on the global scope, returns exactly `OwnerIsProperAncestor` |
| `Scopes.AncestorIsOlder` | flang/lib/Evaluate/check-expression.cpp:196-201 | every scope met on the walk is a known scope older than the starting one |
| `Scopes.NeverOwnAncestor` | flang/lib/Evaluate/check-expression.cpp:196-198 | the walk never compares the scope it starts from |
| `Scopes.AncestorTransitive` | flang/lib/Evaluate/check-expression.cpp:196-201 | a scope met on the walk from a scope met on the walk from s is met on the walk from s |
| `Scopes.ReachesGlobal` | flang/lib/Evaluate/check-expression.cpp:196-201 | from a scope that is not global, the walk reaches and compares a global scope |
| `InitialDataTarget.SymbolTarget` | flang/lib/Evaluate/check-expression.cpp:83-103 | a symbol is always accepted, with no message iff its ultimate symbol has no violation, and otherwise exactly the first violation in priority order |
| `InitialDataTarget.ExprTarget` | flang/lib/Evaluate/check-expression.cpp:78-142 | only NULL(), a procedure, or a designator, complex part, substring or parenthesised form of a reference without a coindexed part can be accepted |
| `InitialDataTarget.RefTarget` | flang/lib/Evaluate/check-expression.cpp:71-122 | a data reference with a coindexed part anywhere along its base chain is never accepted |
| `InitialDataTarget.SubscriptTarget` | flang/lib/Evaluate/check-expression.cpp:108-121 | a value subscript of nonzero rank is never acceptable and a scalar literal one always is; under the intended reading a subscript is acceptable only if it is as written |
| `InitialDataTarget.SymbolPriority` | flang/lib/Evaluate/check-expression.cpp:84-101 | the message is about the ultimate symbol: ALLOCATABLE, else corank > 0, else no TARGET, else not saved, else none |
| `InitialDataTarget.ShapeRules` | flang/lib/Evaluate/check-expression.cpp:78-142 | under either reading: BOZ literals, constants, static data, type-parameter and descriptor inquiries, coarray references, constructors, calls, operations and relations are rejected with no message; NULL() is accepted; parentheses are transparent; a substring is accepted iff both bounds are constant under that reading and its parent is accepted |
| `InitialDataTarget.PartRules` | flang/lib/Evaluate/check-expression.cpp:108-121 | under either reading: an array reference is accepted iff its base is and every subscript is constant under that reading, a value subscript also scalar, adding no message; a component is accepted iff its base is, its symbol reported on only then |
| `InitialDataTarget.ExprReportsOnDesignated` | flang/lib/Evaluate/check-expression.cpp:83-103 | every message is the first violation of the ultimate symbol of a symbol the expression designates, and there are at most as many messages as designated symbols |
| `InitialDataTarget.VerdictIgnoresAttributes` | flang/lib/Evaluate/check-expression.cpp:83-103 | the verdict does not depend on symbol resolution or the SAVE analysis; those change only the messages |
| `InitialDataTarget.HalvedSubscriptAcceptedAsWritten` | flang/lib/Evaluate/check-expression.cpp:112-118 | as written, `a(n/2)` with n a plain variable is accepted, because the division rule at lines 53-57 calls `n/2` constant; as intended it is rejected |
| `InitialDataTarget.IsInitialDataTarget` | flang/lib/Evaluate/check-expression.cpp:148-151 | under the given reading, the check returns the verdict of `ExprTarget` and appends exactly its messages to the sink, in order |
| `InitialDataTarget.CheckRef` | flang/lib/Evaluate/check-expression.cpp:71-76 | under the given reading, on a data reference, the verdict and appended messages are those of `RefTarget`; a component is visited only when its base is accepted |
| `InitialDataTarget.CheckSymbol` | flang/lib/Evaluate/check-expression.cpp:83-103 | on a symbol, the check appends the message of `SymbolTarget` and returns true |
| `Diagnostics.Messages.Say` | flang/lib/Evaluate/check-expression.cpp:86-100 | saying a message appends exactly that message to the sink and changes nothing else in it |
| `SpecificationExpr.SymbolReason` | flang/lib/Evaluate/check-expression.cpp:169-203 | any reason given against a symbol names that symbol, except "dummy procedure argument" |
| `SpecificationExpr.ExprReason` | flang/lib/Evaluate/check-expression.cpp:153-167 | no literal expression has a reason against it |
| `SpecificationExpr.CallReason` | flang/lib/Evaluate/check-expression.cpp:216-234 | a reason against a call is either "reference to impure function" naming the called symbol, or the reason of one of its arguments |
| `SpecificationExpr.DummyRules` | flang/lib/Evaluate/check-expression.cpp:169-183 | a named constant is valid; for a dummy argument OPTIONAL takes precedence over INTENT(OUT), both reasons carry the name, an object dummy is valid, any other dummy is "dummy procedure argument" |
| `SpecificationExpr.AssociatedRules` | flang/lib/Evaluate/check-expression.cpp:184-195 | use- and host-associated symbols, symbols owned by a module and objects in a COMMON block are valid |
| `SpecificationExpr.ScopeRule` | flang/lib/Evaluate/check-expression.cpp:196-202 | any other symbol is valid iff its owner is met walking out from the checking scope; one owned by the checking scope is a local entity; one owned by its parent is valid |
| `SpecificationExpr.ExprValidNested` | flang/lib/Evaluate/check-expression.cpp:196-202 | an expression valid in a scope is valid in every scope nested inside it |
| `SpecificationExpr.CallRules` | flang/lib/Evaluate/check-expression.cpp:205-234 | an impure procedure gives "reference to impure function"; PRESENT and KIND are valid whatever their arguments; other calls give the first argument reason; a component checks only its base |
| `SpecificationExpr.FirstArgumentReason` | flang/lib/Evaluate/check-expression.cpp:233 | a pure call's reason is the reason of its first argument that has one |
| `SpecificationExpr.NodeRules` | flang/lib/Evaluate/check-expression.cpp:164-167 | a coindexed reference and a procedure designator are invalid, each with its fixed reason; a descriptor inquiry is valid |
| `SpecificationExpr.TextQuotesName` | flang/lib/Evaluate/check-expression.cpp:174-202 | each reason about a symbol quotes the symbol's name |
| `SpecificationExpr.CheckSpecificationExpr` | flang/lib/Evaluate/check-expression.cpp:240-246 | exactly one "Invalid specification expression" message, carrying the reason's text, is appended iff a reason is found |
| `SimplyContiguous.CheckSubscripts` | flang/lib/Evaluate/check-expression.cpp:325-347 | the right-to-left scan returns the triplet count iff every stride is one, every subscript left of a triplet is a bare ":" and every value subscript is scalar; otherwise nothing |
| `SimplyContiguous.TripletsBounded` | flang/lib/Evaluate/check-expression.cpp:341 | the rank found never exceeds the number of subscripts |
| `SimplyContiguous.RankIsLeadingTriplets` | flang/lib/Evaluate/check-expression.cpp:329-346 | on success the rank is the length of the leading run of triplets; everything after it is a scalar value subscript |
| `SimplyContiguous.PatternExamples` | flang/lib/Evaluate/check-expression.cpp:329-344 | `(:, :, 1:5)` gives rank 3; `(:, 2:4, :)` fails |
| `SimplyContiguous.SymbolIsContiguous` | flang/lib/Evaluate/check-expression.cpp:272-286 | a CONTIGUOUS symbol is contiguous; an array without CONTIGUOUS is contiguous only if it is a non-pointer object that is neither assumed-shape nor assumed-rank |
| `SimplyContiguous.RefContiguity` | flang/lib/Evaluate/check-expression.cpp:288-304 | every data reference gets an answer, under either reading |
| `SimplyContiguous.ExprContiguity` | flang/lib/Evaluate/check-expression.cpp:263-320 | a designator or a function reference always gets an answer |
| `SimplyContiguous.IsSimplyContiguousAs` | flang/lib/Evaluate/check-expression.cpp:352-360 | a non-variable is contiguous; a variable is contiguous when its walk answers true, and not when it gives no answer or the answer false |
| `SimplyContiguous.IsSimplyContiguous` | flang/lib/Evaluate/check-expression.cpp:352-360 | the corrected classifier accepts only references the code as written also accepts |
| `SimplyContiguous.ExprRefines` | flang/lib/Evaluate/check-expression.cpp:288-304 | wherever the corrected walk answers true, the walk as written answers true |
| `SimplyContiguous.SymbolAndPartRules` | flang/lib/Evaluate/check-expression.cpp:272-306 | under either reading: a symbol is contiguous if CONTIGUOUS or scalar, else not if a pointer, else iff an object neither assumed-shape nor assumed-rank; complex parts and substrings never are |
| `SimplyContiguous.CoarrayRule` | flang/lib/Evaluate/check-expression.cpp:299-301 | under either reading, a coarray reference is contiguous iff its subscripts pass the scan, whatever the rank |
| `SimplyContiguous.ArrayRefRule` | flang/lib/Evaluate/check-expression.cpp:288-298 | as intended, an array reference is contiguous iff its base symbol is and the scan succeeds with rank > 0 or the reference is scalar; as written, the base symbol is not consulted and only the scan condition remains |
| `SimplyContiguous.ComponentRule` | flang/lib/Evaluate/check-expression.cpp:302-304 | as intended, a component is contiguous iff its base is scalar and its symbol is contiguous; as written, iff its base is scalar |
| `SimplyContiguous.FunctionRule` | flang/lib/Evaluate/check-expression.cpp:308-320 | under either reading, a call is contiguous iff its result is a data pointer with the Pointer and Contiguous attributes |
| `SimplyContiguous.PointerNeverContiguous` | flang/lib/Evaluate/check-expression.cpp:272-298 | as intended, a pointer array without CONTIGUOUS is never simply contiguous, whole or subscripted |
| `SimplyContiguous.PointerSectionAcceptedAsWritten` | flang/lib/Evaluate/check-expression.cpp:288-298 | as written, `p(:)`, a rank-1 section of a non-contiguous pointer p, is simply contiguous; as intended it is not |
| `SimplyContiguous.PointerComponentAcceptedAsWritten` | flang/lib/Evaluate/check-expression.cpp:302-304 | as written, `t%p`, with t scalar and p a rank-1 pointer component without CONTIGUOUS, is simply contiguous; as intended it is not |

## Findings

| source | as written | input that shows it | evidently intended | confidence | as-written member | corrected member |
|---|---|---|---|---|---|---|
| flang/lib/Evaluate/check-expression.cpp:53-57 | the integer-division rule returns "divisor is nonzero" and never visits the dividend | `x / 3` with x a variable is classified constant; through it, `a(n/2)` with n a variable is accepted as an initial data target | the division is constant when the divisor folds to nonzero and the dividend is constant; the comment says the rule only adds the zero test | high; not executed | `ConstantExpr.VariableDividendAccepted` | `ConstantExpr.DivisionRule` |
| flang/lib/Evaluate/check-expression.cpp:290 | `!(*this)(symbol)` tests an optional bool for presence; the symbol rule always answers, so the test never fails | `p(:)` with p a rank-1 pointer without CONTIGUOUS is classified simply contiguous | reject the reference when the base symbol's answer is false | high; not executed | `SimplyContiguous.PointerSectionAcceptedAsWritten` | `SimplyContiguous.ArrayRefRule` |
| flang/lib/Evaluate/check-expression.cpp:303 | `&& (*this)(x.GetLastSymbol())` tests an optional bool for presence, which always holds | `t%p` with t scalar and p a pointer array component without CONTIGUOUS is classified simply contiguous | require the component symbol's answer to be true | high; not executed | `SimplyContiguous.PointerComponentAcceptedAsWritten` | `SimplyContiguous.ComponentRule` |

## Left out

- The walk library (`traverse.h`) is not part of this model. Its two default combinators are
  modelled directly. The conjunction stops at the first rejected child. For the pure checks this
  makes no difference. For `IsInitialDataTarget` it means that once a child is rejected, no later
  sibling is visited, so that sibling reports no messages.
- Folding, procedure characterization, `IsVariable`, `IsSaved`, `IsPureProcedure`,
  `GetUltimate` and expression rank are not implemented. Each is a field of `Oracle` that the
  checks only query. The same folding query stands for `GetScalarConstantValue` (line 53) and for
  the stride test `IsStrideOne` (line 331).
- `IsNamedConstant` is read as the PARAMETER attribute, and `IsImpliedDoIndex` as a flag on the
  symbol.
- Message text formatting is left out. Diagnostics are tags carrying the symbol's name. The
  reasons of the specification checker do keep their exact text (`SpecificationExpr.Text`).
- A substring's absent upper bound is treated as absent. It is not replaced by the parent's LEN
  expression, which is not part of this model.
- Procedure designators that name a procedure-pointer component are not modelled. A designator
  is a specific intrinsic or a procedure symbol.
- Implied-DO loops inside array constructors, and derived-type parameters of structure
  constructors, appear only as the child expressions the walks visit, in visiting order.
- The STAT and TEAM parts of a coarray reference are left out. Every check decides a coarray
  reference without visiting its children.
- The C++ template instantiations (lines 64-66, 248-260, 362-363) and the CRTP mechanics are
  left out. The known gaps the source marks with TODO (other inquiry intrinsics, EQUIVALENCE
  and blank COMMON) are kept as the code has them.
