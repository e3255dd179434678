/** Sequences that are permutations of each other. */
module Permutations {
  /** The first element of one stands somewhere in the other, and the rests are permutations again. */
  lemma MatchFirst<T>(us: seq<T>, vs: seq<T>) returns (k: nat)
    requires us != [] && multiset(us) == multiset(vs)
    ensures k < |vs| && vs[k] == us[0]
    ensures multiset(us[1..]) == multiset(vs[..k] + vs[k + 1..])
  {
    assert us[0] in multiset(vs);
    k :| 0 <= k < |vs| && vs[k] == us[0];
    assert us == [us[0]] + us[1..];
    assert vs == vs[..k] + [vs[k]] + vs[k + 1..];
    assert multiset(us[1..]) == multiset(us) - multiset{us[0]};
    assert multiset(vs[..k] + vs[k + 1..]) == multiset(vs) - multiset{vs[k]};
  }

  lemma EmptyMatch<T>(us: seq<T>, vs: seq<T>)
    requires us == [] && multiset(us) == multiset(vs)
    ensures vs == []
  {
    assert |multiset(vs)| == |vs|;
  }
}
