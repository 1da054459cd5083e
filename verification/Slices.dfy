/** A sequence standing at a place of another one. */
module Slices {

  predicate StandsAt<T(==)>(s: seq<T>, o: nat, w: seq<T>) {
    o + |w| <= |s| && s[o..o + |w|] == w
  }

  lemma StandsAtConcat<T>(s: seq<T>, o: nat, u: seq<T>, v: seq<T>)
    ensures StandsAt(s, o, u + v) <==> StandsAt(s, o, u) && StandsAt(s, o + |u|, v)
  {
    if o + |u| + |v| <= |s| {
      var w := s[o..o + |u| + |v|];
      assert w[..|u|] == s[o..o + |u|] && w[|u|..] == s[o + |u|..o + |u| + |v|];
      assert (u + v)[..|u|] == u && (u + v)[|u|..] == v;
      assert w == w[..|u|] + w[|u|..];
    }
  }

  lemma StandsAtOne<T>(s: seq<T>, o: nat, x: T)
    ensures StandsAt(s, o, [x]) <==> o < |s| && s[o] == x
  {
    if o < |s| {
      assert s[o..o + 1] == [s[o]];
    }
  }

  lemma StandsAtHead<T>(s: seq<T>, o: nat, w: seq<T>)
    requires StandsAt(s, o, w) && w != []
    ensures o < |s| && s[o] == w[0]
  {
    assert s[o..o + |w|][0] == s[o];
  }

  lemma Regroup<T>(a: seq<T>, b: seq<T>, c: seq<T>)
    ensures a + (b + c) == a + b + c
  {
  }
}
