/** Sequences found at a place in a longer one: bytes in a message, tokens in a program, characters in a text. */
module Places {

  /** `b` stands at `p`. */
  predicate At<T(==)>(m: seq<T>, p: nat, b: seq<T>) {
    p + |b| <= |m| && m[p..p + |b|] == b
  }

  lemma AtConcat<T>(m: seq<T>, p: nat, a: seq<T>, b: seq<T>)
    requires At(m, p, a + b)
    ensures At(m, p, a) && At(m, p + |a|, b)
  {
    assert m[p..p + |a|] == m[p..p + |a + b|][..|a|];
    assert m[p + |a|..p + |a| + |b|] == m[p..p + |a + b|][|a|..];
  }

  lemma AtFits<T>(m: seq<T>, p: nat, b: seq<T>)
    requires At(m, p, b)
    ensures p + |b| <= |m|
  {
  }

  lemma AtIndex<T>(m: seq<T>, p: nat, b: seq<T>, i: nat)
    requires At(m, p, b) && i < |b|
    ensures p + i < |m| && m[p + i] == b[i]
  {
    assert m[p + i] == m[p..p + |b|][i];
  }

  lemma AtSlice<T>(m: seq<T>, p: nat, b: seq<T>)
    requires At(m, p, b)
    ensures p + |b| <= |m| && m[p..p + |b|] == b
  {
  }

  lemma AtStart<T>(m: seq<T>)
    ensures At(m, 0, m)
  {
  }
}
