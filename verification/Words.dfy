/** Bytes, and folding over them. */
module Words {

  type Byte = b: int | 0 <= b < 256
  type Bytes = seq<Byte>

  function Fold<A, B>(f: (A, B) -> A, c: A, s: seq<B>): A {
    if s == [] then c else f(Fold(f, c, s[..|s| - 1]), s[|s| - 1])
  }

  lemma {:induction false} FoldConcat<A, B>(f: (A, B) -> A, c: A, s: seq<B>, t: seq<B>)
    ensures Fold(f, c, s + t) == Fold(f, Fold(f, c, s), t)
  {
    if t == [] {
      assert s + t == s;
    } else {
      FoldConcat(f, c, s, t[..|t| - 1]);
      assert (s + t)[..|s + t| - 1] == s + t[..|t| - 1];
    }
  }

  lemma FoldStep<A, B>(f: (A, B) -> A, c: A, s: seq<B>, i: nat)
    requires i < |s|
    ensures Fold(f, c, s[..i + 1]) == f(Fold(f, c, s[..i]), s[i])
  {
    assert s[..i + 1][..i] == s[..i];
  }
}
