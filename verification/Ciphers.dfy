/** Block ciphers under a fixed key, as maps on octet strings. */
module Ciphers {
  import opened Bytes

  /** `f` keeps the block size. */
  ghost predicate BlockFunction(f: seq<byte> -> seq<byte>, size: nat) {
    forall b :: |b| == size ==> |f(b)| == size
  }

  ghost predicate Undoes(g: seq<byte> -> seq<byte>, f: seq<byte> -> seq<byte>, size: nat) {
    BlockFunction(g, size) && forall b :: |b| == size ==> g(f(b)) == b && f(g(b)) == b
  }

  /** What a block cipher under a key is. */
  ghost predicate BlockPermutation(f: seq<byte> -> seq<byte>, size: nat) {
    BlockFunction(f, size) && exists g :: Undoes(g, f, size)
  }

  lemma PermutationIsInjective(f: seq<byte> -> seq<byte>, size: nat, a: seq<byte>, b: seq<byte>)
    requires BlockPermutation(f, size) && |a| == |b| == size && f(a) == f(b)
    ensures a == b
  {
    var g :| Undoes(g, f, size);
    assert g(f(a)) == a && g(f(b)) == b;
  }
}
