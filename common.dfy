/** Values shared by every part of the policy compiler. */
module Common {

  /** Python's `None` or a value. */
  datatype Option<+T> = None | Some(value: T)

  /** Python truthiness of a `str | None`: present and non-empty. */
  predicate Truthy(o: Option<string>)
  {
    o.Some? && o.value != ""
  }

  /** `o.get(key)` on a dictionary. */
  function Get<K, V>(m: map<K, V>, k: K): (r: Option<V>)
    ensures r.Some? <==> k in m
    ensures r.Some? ==> r.value == m[k]
  {
    if k in m then Some(m[k]) else None
  }

  /** The present results of `f` over `s`, in order: a loop that appends
      only the non-empty results. */
  function Collect<A, B>(f: A -> Option<B>, s: seq<A>): seq<B>
  {
    if s == [] then []
    else Collect(f, s[..|s| - 1]) + (if f(s[|s| - 1]).Some? then [f(s[|s| - 1]).value] else [])
  }

  /** `Collect` keeps exactly the present results, and never more of them than it was given. */
  lemma {:induction false} CollectMembership<A, B>(f: A -> Option<B>, s: seq<A>)
    ensures forall y :: y in Collect(f, s) <==> exists i :: 0 <= i < |s| && f(s[i]) == Some(y)
    ensures |Collect(f, s)| <= |s|
  {
    if s != [] {
      var init := s[..|s| - 1];
      CollectMembership(f, init);
      assert forall i :: 0 <= i < |init| ==> init[i] == s[i];
    }
  }
}
