/** Order-preserving selection of the elements of a sequence that satisfy a
    predicate, and the image of a sequence under a key function.  These are
    the two loop shapes of the feature-set queries (copy every matching
    element, in order; collect every key into a set). */
module Filters {

  /** The elements of `s` satisfying `p`, in their original order.  Written
      from the back so that it follows a left-to-right loop that appends. */
  function Filter<T(!new)>(s: seq<T>, p: T -> bool): (r: seq<T>)
    ensures |r| <= |s|
    ensures forall x :: x in r <==> x in s && p(x)
    decreases |s|
  {
    if |s| == 0 then []
    else
      var init := s[..|s| - 1];
      assert forall x :: x in s <==> x in init || x == s[|s| - 1];
      Filter(init, p) + (if p(s[|s| - 1]) then [s[|s| - 1]] else [])
  }

  /** The set of keys of the elements of `s`. */
  function Image<T, K(!new)>(s: seq<T>, key: T -> K): (r: set<K>)
    ensures forall k :: k in r <==> exists i :: 0 <= i < |s| && key(s[i]) == k
    decreases |s|
  {
    if |s| == 0 then {}
    else
      var init := s[..|s| - 1];
      assert forall i :: 0 <= i < |init| ==> init[i] == s[i];
      Image(init, key) + {key(s[|s| - 1])}
  }

  /** Selection distributes over concatenation: the order of the input is
      kept, block by block. */
  lemma {:induction false} FilterAppend<T(!new)>(a: seq<T>, b: seq<T>, p: T -> bool)
    ensures Filter(a + b, p) == Filter(a, p) + Filter(b, p)
    decreases |b|
  {
    if |b| == 0 {
      assert a + b == a;
    } else {
      var b' := b[..|b| - 1];
      assert (a + b)[..|a + b| - 1] == a + b';
      assert (a + b)[|a + b| - 1] == b[|b| - 1];
      FilterAppend(a, b', p);
    }
  }

  /** Each element occurs in the selection exactly as often as in the input
      when it satisfies the predicate, and never otherwise. */
  lemma {:induction false} FilterCounts<T(!new)>(s: seq<T>, p: T -> bool, x: T)
    ensures multiset(Filter(s, p))[x] == if p(x) then multiset(s)[x] else 0
    decreases |s|
  {
    if |s| > 0 {
      var init := s[..|s| - 1];
      assert s == init + [s[|s| - 1]];
      FilterCounts(init, p, x);
    }
  }

  /** Selecting twice with the same predicate selects nothing more. */
  lemma {:induction false} FilterIdempotent<T(!new)>(s: seq<T>, p: T -> bool)
    ensures Filter(Filter(s, p), p) == Filter(s, p)
    decreases |s|
  {
    if |s| > 0 {
      var init := s[..|s| - 1];
      var last := s[|s| - 1];
      FilterIdempotent(init, p);
      FilterAppend(Filter(init, p), if p(last) then [last] else [], p);
      if p(last) {
        assert [last][..0] == [];
      }
    }
  }

  /** Appending one element adds exactly its key to the image. */
  lemma ImageAppend<T, K(!new)>(s: seq<T>, x: T, key: T -> K)
    ensures Image(s + [x], key) == Image(s, key) + {key(x)}
  {
    assert (s + [x])[..|s + [x]| - 1] == s;
  }
}
