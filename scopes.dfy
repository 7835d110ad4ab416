/**
 * The scope tree the specification checker consults: every scope has a kind
 * and a parent, the chain of parents ends at the global scope, and a scope is
 * created after its parent, so its identifier is larger.
 */
module Scopes {
  import opened Expressions

  datatype ScopeKind = Global | Module | MainProgram | Subprogram | BlockConstruct | DerivedType | ImpliedDos | OtherScope

  datatype ScopeTree = ScopeTree(kind: map<ScopeId, ScopeKind>, parent: map<ScopeId, ScopeId>)

  /** Every known scope has a parent; every scope but a global one has an older, known parent. */
  predicate Valid(t: ScopeTree) {
    forall s | s in t.kind ::
      s in t.parent && (t.kind[s] != Global ==> t.parent[s] in t.kind && t.parent[s] < s)
  }

  predicate IsGlobal(t: ScopeTree, s: ScopeId)
    requires s in t.kind
  {
    t.kind[s] == Global
  }

  /** Whether scope s is known and of kind k. */
  predicate KindIs(t: ScopeTree, s: ScopeId, k: ScopeKind) {
    s in t.kind && t.kind[s] == k
  }

  /**
   * Whether owner is met when walking outward from s: the walk steps to the
   * parent before comparing, and stops once it stands on a global scope.
   */
  function OwnerIsProperAncestor(t: ScopeTree, s: ScopeId, owner: ScopeId): bool
    requires Valid(t) && s in t.kind
    decreases s
  {
    if IsGlobal(t, s) then false
    else t.parent[s] == owner || OwnerIsProperAncestor(t, t.parent[s], owner)
  }

  /** The scope walk as the checker runs it, one parent at a time. */
  method FindOwnerInEnclosingScopes(t: ScopeTree, scope: ScopeId, owner: ScopeId) returns (found: bool)
    requires Valid(t) && scope in t.kind
    ensures found == OwnerIsProperAncestor(t, scope, owner)
  {
    var s := scope;
    while !IsGlobal(t, s)
      invariant s in t.kind
      invariant OwnerIsProperAncestor(t, scope, owner) == OwnerIsProperAncestor(t, s, owner)
      decreases s
    {
      s := t.parent[s];
      if s == owner {
        return true;
      }
    }
    return false;
  }

  /** Every proper ancestor is a known scope created before s. */
  lemma {:induction false} AncestorIsOlder(t: ScopeTree, s: ScopeId, a: ScopeId)
    requires Valid(t) && s in t.kind
    requires OwnerIsProperAncestor(t, s, a)
    ensures a in t.kind && a < s
    decreases s
  {
    var p := t.parent[s];
    if p != a {
      AncestorIsOlder(t, p, a);
    }
  }

  /** The walk never compares the scope it starts from. */
  lemma NeverOwnAncestor(t: ScopeTree, s: ScopeId)
    requires Valid(t) && s in t.kind
    ensures !OwnerIsProperAncestor(t, s, s)
  {
    if OwnerIsProperAncestor(t, s, s) {
      AncestorIsOlder(t, s, s);
    }
  }

  /** An ancestor of an ancestor is an ancestor. */
  lemma {:induction false} AncestorTransitive(t: ScopeTree, s: ScopeId, a: ScopeId, b: ScopeId)
    requires Valid(t) && s in t.kind && a in t.kind
    requires OwnerIsProperAncestor(t, s, a) && OwnerIsProperAncestor(t, a, b)
    ensures OwnerIsProperAncestor(t, s, b)
    decreases s
  {
    var p := t.parent[s];
    if p != a {
      AncestorTransitive(t, p, a, b);
    }
  }

  /** From a scope that is not global the walk reaches a global scope. */
  lemma {:induction false} ReachesGlobal(t: ScopeTree, s: ScopeId)
    requires Valid(t) && s in t.kind && !IsGlobal(t, s)
    ensures exists g :: KindIs(t, g, Global) && OwnerIsProperAncestor(t, s, g)
    decreases s
  {
    var p := t.parent[s];
    if !IsGlobal(t, p) {
      ReachesGlobal(t, p);
      var g :| KindIs(t, g, Global) && OwnerIsProperAncestor(t, p, g);
      assert OwnerIsProperAncestor(t, s, g);
    } else {
      assert KindIs(t, p, Global) && OwnerIsProperAncestor(t, s, p);
    }
  }
}
