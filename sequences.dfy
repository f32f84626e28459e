/** The array built-ins the table code relies on: `filter` and the
    `Math.max(...xs)` of a non-empty list. */
module Sequences {

  /** `s.filter(p)`: the elements of `s` that satisfy `p`, in order. */
  function Filter<T>(p: T -> bool, s: seq<T>): (r: seq<T>)
    ensures |r| <= |s|
    ensures forall j | 0 <= j < |r| :: p(r[j])
  {
    if s == [] then []
    else Filter(p, s[..|s| - 1]) + (if p(s[|s| - 1]) then [s[|s| - 1]] else [])
  }

  /** The positions in `s` of the elements that satisfy `p`, ascending. */
  function Indices<T>(p: T -> bool, s: seq<T>): (ix: seq<nat>)
    ensures forall j | 0 <= j < |ix| :: ix[j] < |s| && p(s[ix[j]])
    ensures forall j, k | 0 <= j < k < |ix| :: ix[j] < ix[k]
  {
    if s == [] then []
    else Indices(p, s[..|s| - 1]) + (if p(s[|s| - 1]) then [|s| - 1] else [])
  }

  /** `Filter` keeps exactly the elements at `Indices`: every element that
      satisfies `p` is kept, in its original order, and nothing else is. */
  lemma {:induction false} FilterIsSubsequence<T>(p: T -> bool, s: seq<T>)
    ensures |Filter(p, s)| == |Indices(p, s)|
    ensures forall j | 0 <= j < |Filter(p, s)| :: Filter(p, s)[j] == s[Indices(p, s)[j]]
    ensures forall i | 0 <= i < |s| :: p(s[i]) <==> i in Indices(p, s)
  {
    if s != [] {
      var init := s[..|s| - 1];
      FilterIsSubsequence(p, init);
      assert forall i | 0 <= i < |init| :: init[i] == s[i];
    }
  }

  /** `Filter` yields nothing exactly when no element satisfies `p`. */
  lemma FilterEmpty<T>(p: T -> bool, s: seq<T>)
    ensures Filter(p, s) == [] <==> forall i | 0 <= i < |s| :: !p(s[i])
  {
    FilterIsSubsequence(p, s);
    if Filter(p, s) != [] {
      var ix := Indices(p, s);
      assert p(s[ix[0]]);
    }
  }

  /** `Math.max(...s)` for a non-empty `s`: the largest element. */
  function MaxOf(s: seq<int>): (m: int)
    requires |s| > 0
    ensures m in s
    ensures forall i | 0 <= i < |s| :: s[i] <= m
  {
    if |s| == 1 then s[0]
    else
      var m := MaxOf(s[..|s| - 1]);
      assert forall i | 0 <= i < |s| - 1 :: s[..|s| - 1][i] == s[i];
      if s[|s| - 1] > m then s[|s| - 1] else m
  }
}
