/** Digests as parameters, and output made by truncating a concatenation of digests. */
module Streams {
  import opened Bytes

  /** A hash function: any function whose digests all have `size` octets. */
  datatype Hash = Hash(size: nat, digest: seq<byte> -> seq<byte>) {
    ghost predicate Valid() {
      size > 0 && forall m :: |digest(m)| == size
    }
  }

  /** A keyed hash: any function of key and message with results of `size` octets. */
  datatype Hmac = Hmac(size: nat, mac: (seq<byte>, seq<byte>) -> seq<byte>) {
    ghost predicate Valid() {
      size > 0 && forall k, m :: |mac(k, m)| == size
    }
  }

  /** A pointer and a length: a null pointer contributes nothing, whatever its length. */
  datatype Input = Null(len: nat) | Given(data: seq<byte>) {
    function Length(): nat {
      if Null? then len else |data|
    }
    function Octets(): seq<byte> {
      if Null? then [] else data
    }
  }

  ghost predicate BlocksOf(f: nat -> seq<byte>, d: nat) {
    d > 0 && forall i :: |f(i)| == d
  }

  /** f(0) + f(1) + ... + f(n-1) */
  ghost function Stream(f: nat -> seq<byte>, n: nat): seq<byte> {
    if n == 0 then [] else Stream(f, n - 1) + f(n - 1)
  }

  /** The number of blocks of `d` octets that cover `size` octets. */
  function Blocks(size: nat, d: nat): nat
    requires d > 0
  {
    (size + d - 1) / d
  }

  /** The leftmost `size` octets of f(0) + f(1) + ... */
  ghost function Take(f: nat -> seq<byte>, d: nat, size: nat): (s: seq<byte>)
    requires BlocksOf(f, d)
    ensures |s| == size
  {
    StreamLength(f, d, Blocks(size, d));
    BlocksCover(size, d);
    Stream(f, Blocks(size, d))[..size]
  }

  lemma {:induction false} StreamLength(f: nat -> seq<byte>, d: nat, n: nat)
    requires BlocksOf(f, d)
    ensures |Stream(f, n)| == n * d
  {
    if n > 0 {
      StreamLength(f, d, n - 1);
      assert (n - 1) * d + d == n * d;
    }
  }

  lemma BlocksCover(size: nat, d: nat)
    requires d > 0
    ensures size <= Blocks(size, d) * d < size + d
  {
    var q, r := (size + d - 1) / d, (size + d - 1) % d;
    assert size + d - 1 == q * d + r;
  }

  lemma BlocksExact(i: nat, d: nat, count: nat)
    requires 0 < count <= d
    ensures Blocks(i * d, d) == i && Blocks(i * d + count, d) == i + 1
  {
    DivModUnique(i * d + d - 1, d, i, d - 1);
    assert (i + 1) * d == i * d + d;
    DivModUnique(i * d + count + d - 1, d, i + 1, count - 1);
  }

  /** One more (possibly cut) block after `i` whole ones. */
  lemma TakeGrow(f: nat -> seq<byte>, d: nat, i: nat, count: nat)
    requires BlocksOf(f, d) && 0 < count <= d
    ensures Take(f, d, i * d + count) == Take(f, d, i * d) + f(i)[..count]
  {
    BlocksExact(i, d, count);
    StreamLength(f, d, i);
    var s := Stream(f, i);
    assert Stream(f, i + 1) == s + f(i);
    assert (s + f(i))[..i * d + count] == s + f(i)[..count];
    assert s[..i * d] == s;
  }

  lemma {:induction false} StreamPrefix(f: nat -> seq<byte>, m: nat, n: nat)
    requires m <= n
    ensures Stream(f, m) <= Stream(f, n)
  {
    if m < n { StreamPrefix(f, m, n - 1); }
  }

  /** A shorter request gets a prefix of what a longer one gets. */
  lemma TakePrefix(f: nat -> seq<byte>, d: nat, a: nat, b: nat)
    requires BlocksOf(f, d) && a <= b
    ensures Take(f, d, a) == Take(f, d, b)[..a]
  {
    BlocksCover(a, d);
    BlocksCover(b, d);
    var m, n := Blocks(a, d), Blocks(b, d);
    assert m <= n by {
      assert (n + 1) * d == n * d + d;
      if n < m { MulLe(n + 1, m, d); }
    }
    StreamPrefix(f, m, n);
    StreamLength(f, d, m);
    StreamLength(f, d, n);
  }

  // ----- what a cut stream consists of

  /** Part of one block, read off the stream. */
  lemma TakeAt(f: nat -> seq<byte>, d: nat, size: nat, i: nat, at: nat, count: nat)
    requires BlocksOf(f, d) && at == i * d && count <= d && at + count <= size
    ensures |f(i)| == d
    ensures Take(f, d, size)[at..at + count] == f(i)[..count]
  {
    if count > 0 {
      TakePrefix(f, d, at + count, size);
      TakeGrow(f, d, i, count);
      var s := Take(f, d, size);
      assert s[at..at + count] == s[..at + count][at..];
    }
  }

  /** The string is the front of the concatenated blocks: octet `j` is octet `j % d` of block `j / d`. */
  ghost predicate CutFrom(s: seq<byte>, blocks: seq<seq<byte>>, d: nat) {
    && d > 0 && |blocks| == Blocks(|s|, d)
    && (forall i :: 0 <= i < |blocks| ==> |blocks[i]| == d)
    && forall j :: 0 <= j < |s| ==> j / d < |blocks| && s[j] == blocks[j / d][j % d]
  }

  lemma BlockOf(j: nat, size: nat, d: nat)
    requires d > 0 && j < size
    ensures j / d < Blocks(size, d)
    ensures j / d * d + j % d == j
  {
    var i, r := j / d, j % d;
    assert j == i * d + r;
    BlocksCover(size, d);
    if Blocks(size, d) <= i { MulLe(Blocks(size, d), i, d); }
  }

  lemma TakeOctet(f: nat -> seq<byte>, d: nat, size: nat, j: nat)
    requires BlocksOf(f, d) && j < size
    ensures |f(j / d)| == d && Take(f, d, size)[j] == f(j / d)[j % d]
  {
    hide Blocks, Take;
    var i, r := j / d, j % d;
    BlockOf(j, size, d);
    TakePrefix(f, d, j + 1, size);
    TakeGrow(f, d, i, r + 1);
    var at := i * d;
    assert at + (r + 1) == j + 1;
    assert Take(f, d, j + 1)[j] == f(i)[..r + 1][r];
  }

  /** A cut stream is the front of its blocks. */
  lemma TakeIsCut(f: nat -> seq<byte>, d: nat, size: nat, blocks: seq<seq<byte>>)
    requires BlocksOf(f, d) && |blocks| == Blocks(size, d)
    requires forall i :: 0 <= i < |blocks| ==> blocks[i] == f(i)
    ensures CutFrom(Take(f, d, size), blocks, d)
  {
    hide Blocks, Take;
    var s := Take(f, d, size);
    forall j | 0 <= j < |s| ensures j / d < |blocks| && s[j] == blocks[j / d][j % d] {
      BlockOf(j, size, d);
      TakeOctet(f, d, size, j);
    }
  }

  lemma CutNothing(d: nat)
    requires d > 0
    ensures CutFrom([], [], d)
  {
    BlocksAt(0, 0, d);
  }

  /** One more whole block. */
  lemma CutNext(s: seq<byte>, blocks: seq<seq<byte>>, block: seq<byte>, d: nat, n: nat)
    requires CutFrom(s, blocks, d) && |s| == n * d && |block| == d
    ensures CutFrom(s + block, blocks + [block], d)
  {
    BlocksAt(n, |s|, d);
    Distribute(n, 1, d);
    BlocksAt(n + 1, |s| + d, d);
    hide Blocks;
    forall j | |s| <= j < |s| + d ensures j / d == n && j % d == j - |s| {
      DivModUnique(j, d, n, j - |s|);
    }
  }

  // ----- filling a buffer block by block

  /** The first `pos` octets of the buffer are the stream's, after `i` blocks. */
  ghost predicate Filled(out: seq<byte>, f: nat -> seq<byte>, d: nat, i: nat, pos: nat) {
    && BlocksOf(f, d) && pos <= |out|
    && out[..pos] == Take(f, d, pos)
    && (pos < |out| ==> pos == i * d)
  }

  lemma FilledStart(out: seq<byte>, f: nat -> seq<byte>, d: nat)
    requires BlocksOf(f, d)
    ensures Filled(out, f, d, 0, 0)
  {}

  lemma FilledNext(out: seq<byte>, f: nat -> seq<byte>, d: nat, i: nat, pos: nat, count: nat)
    requires Filled(out, f, d, i, pos) && pos < |out| && count == Min(|out| - pos, d)
    ensures |f(i)| == d
    ensures Filled(out[..pos] + f(i)[..count] + out[pos + count..], f, d, i + 1, pos + count)
  {
    TakeGrow(f, d, i, count);
    var out' := out[..pos] + f(i)[..count] + out[pos + count..];
    assert out'[..pos + count] == Take(f, d, pos) + f(i)[..count];
    Distribute(i, 1, d);
  }

  lemma FilledAll(out: seq<byte>, f: nat -> seq<byte>, d: nat, i: nat)
    requires Filled(out, f, d, i, |out|)
    ensures out == Take(f, d, |out|)
  {
    assert out[..|out|] == out;
  }

  lemma BlocksAt(i: nat, pos: nat, d: nat)
    requires d > 0 && pos == i * d
    ensures Blocks(pos, d) == i
  {
    BlocksExact(i, d, 1);
  }

  lemma BlocksAfter(out: seq<byte>, f: nat -> seq<byte>, d: nat, i: nat, pos: nat, count: nat)
    requires Filled(out, f, d, i, pos) && pos < |out| && count == Min(|out| - pos, d)
    ensures Blocks(pos + count, d) == i + 1
  {
    BlocksExact(i, d, count);
  }
}
