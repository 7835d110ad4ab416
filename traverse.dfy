/**
 * The two default combinators of the generic expression walk. A conjunction
 * walk ANDs the results of a node's children, left to right, and yields true
 * for a node without children. A search walk yields the first child result,
 * left to right, that is present, and nothing when every child yields nothing.
 */
module Traverse {
  import opened Wrappers

  /** The conjunction walk's default: true exactly when every child result is. */
  function AllOf(rs: seq<bool>): (r: bool)
    ensures r <==> forall i | 0 <= i < |rs| :: rs[i]
  {
    if rs == [] then true else rs[0] && AllOf(rs[1..])
  }

  /** The search walk's combining step for two children: the left one if present. */
  function OrElse<R>(a: Option<R>, b: Option<R>): Option<R> {
    if a.Some? then a else b
  }

  /** The search walk's default: the first present child result. */
  function FirstFound<R(==)>(rs: seq<Option<R>>): (r: Option<R>)
    ensures r.None? <==> forall i | 0 <= i < |rs| :: rs[i].None?
    ensures r.Some? ==> exists i | 0 <= i < |rs| :: rs[i] == r && forall j | 0 <= j < i :: rs[j].None?
  {
    if rs == [] then None
    else if rs[0].Some? then rs[0]
    else
      var r := FirstFound(rs[1..]);
      assert r.Some? ==> exists i | 0 <= i < |rs[1..]| :: rs[1..][i] == r && forall j | 0 <= j < i :: rs[1..][j].None?;
      if r.Some? then
        var i :| 0 <= i < |rs[1..]| && rs[1..][i] == r && forall j | 0 <= j < i :: rs[1..][j].None?;
        assert rs[i + 1] == r;
        r
      else r
  }

  /** Searching a concatenation searches the first part, then the second. */
  lemma {:induction false} FirstFoundAppend<R>(a: seq<Option<R>>, b: seq<Option<R>>)
    ensures FirstFound(a + b) == if FirstFound(a).Some? then FirstFound(a) else FirstFound(b)
  {
    if a != [] {
      assert (a + b)[1..] == a[1..] + b;
      FirstFoundAppend(a[1..], b);
    } else {
      assert a + b == b;
    }
  }

  /** The result found is the element at the first index whose result is present. */
  lemma FirstFoundAt<R>(rs: seq<Option<R>>, k: nat)
    requires k < |rs| && rs[k].Some?
    requires forall j | 0 <= j < k :: rs[j].None?
    ensures FirstFound(rs) == rs[k]
  {
    var r := FirstFound(rs);
    var i :| 0 <= i < |rs| && rs[i] == r && forall j | 0 <= j < i :: rs[j].None?;
    assert i == k;
  }
}
