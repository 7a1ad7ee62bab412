/** Sequences standing inside longer ones. */
module Slices {

  /** x stands in s at p. */
  predicate Stands<T(==)>(s: seq<T>, p: nat, x: seq<T>) { p + |x| <= |s| && s[p..p + |x|] == x }

  lemma StandsParts<T>(s: seq<T>, p: nat, a: seq<T>, b: seq<T>)
    requires Stands(s, p, a + b)
    ensures Stands(s, p, a) && Stands(s, p + |a|, b)
  {
    var x := s[p..p + |a + b|];
    assert s[p..p + |a|] == x[..|a|] && s[p + |a|..p + |a| + |b|] == x[|a|..];
  }

  lemma StandsJoin<T>(s: seq<T>, p: nat, a: seq<T>, b: seq<T>)
    requires Stands(s, p, a) && Stands(s, p + |a|, b)
    ensures Stands(s, p, a + b)
  {
    assert s[p..p + |a + b|] == s[p..p + |a|] + s[p + |a|..p + |a| + |b|];
  }

  lemma StandsInside<T>(s: seq<T>, p: nat, x: seq<T>)
    requires Stands(s, p, x)
    ensures p + |x| <= |s|
  {}

  lemma StandsAt<T>(s: seq<T>, p: nat, x: seq<T>, i: nat)
    requires Stands(s, p, x) && i < |x|
    ensures s[p + i] == x[i]
  {
    assert s[p + i] == s[p..p + |x|][i];
  }
}
