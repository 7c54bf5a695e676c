/** What the block templates are used for: in-place CBC decryption, counter mode, CBC-MAC. */
module BlockModes {
  import opened Bytes
  import opened Ciphers
  import opened XorBlocks
  import Lanes
  import opened AdvBlocks
  import opened AdvBatches
  import opened AdvTemplates
  import Dmac

  // ----- every block once

  /** A call that may run in batches writes every block once, from the memory before the call. */
  lemma EveryBlockOnce(j: Job, m: seq<byte>, sizes: seq<nat>)
    requires Ok(j, |m|) && Positive(sizes) && Safe(j)
    ensures !j.flags.stationary && Outcome(j, m, Processed(j, m, sizes), 0, j.Count())
  {
    hide Processed, SerialRun, Outcome;
    SafeIsSafeFor(j, sizes);
    ProcessedIsSerial(j, m, sizes);
    SerialOutcome(j, m, 0, j.Count());
  }

  lemma StepMaskBefore(j: Job, m: seq<byte>, k: nat)
    requires Ok(j, |m|) && k < j.Count() && j.hasXor && j.flags.xorInput && !j.flags.counter
    ensures 0 <= InAt(j, k) && InAt(j, k) + j.block <= |m| && 0 <= XorAt(j, k) && XorAt(j, k) + j.block <= |m|
    ensures 0 <= OutAt(j, k) && OutAt(j, k) + j.block <= |m|
    ensures var b := j.f(Xor(Slice(m, InAt(j, k), j.block), Slice(m, XorAt(j, k), j.block)));
      |b| == j.block && Step(j, m, k) == Splice(m, OutAt(j, k), b)
  {
    BlockFits(j, |m|, k);
  }

  lemma StepMaskAfter(j: Job, m: seq<byte>, k: nat)
    requires Ok(j, |m|) && k < j.Count() && j.hasXor && !j.flags.xorInput && !j.flags.counter
    ensures 0 <= InAt(j, k) && InAt(j, k) + j.block <= |m| && 0 <= XorAt(j, k) && XorAt(j, k) + j.block <= |m|
    ensures 0 <= OutAt(j, k) && OutAt(j, k) + j.block <= |m|
    ensures var b := j.f(Slice(m, InAt(j, k), j.block));
      |b| == j.block && Step(j, m, k) == Splice(m, OutAt(j, k), Xor(b, Slice(m, XorAt(j, k), j.block)))
  {
    BlockFits(j, |m|, k);
  }

  // ----- what a call computes, by address

  /** Block `i` from the low end of an area: where the remainder is left out depends on the direction. */
  lemma BlockAddress(j: Job, size: nat, i: nat, o: nat, k: nat)
    requires Ok(j, size) && !j.flags.stationary && i < j.Count()
    requires o == (if j.flags.reverse then j.length % j.block else 0) + (if j.block == 8 then 8 * i else 16 * i)
    requires k == if j.flags.reverse then j.Count() - 1 - i else i
    ensures k < j.Count() && o + j.block <= j.length && OutAt(j, k) == j.output + o && j.output + o + j.block <= size
    ensures j.hasXor ==> XorAt(j, k) == j.xor + o && j.xor + o + j.block <= size
    ensures if j.flags.counter then 0 < j.block && j.input + j.block <= size && k == i
            else InAt(j, k) == j.input + o && j.input + o + j.block <= size
  {}

  lemma CounterBlock(m: seq<byte>, p: nat, size: nat, i: nat, inb: seq<byte>)
    requires 0 < size && p + size <= |m| && |inb| == size
    requires inb == m[p..p + size - 1] + [(m[p + size - 1] + i) % 256]
    ensures inb == Lanes.Bump(Slice(m, p, size), i)
  {}

  lemma ValueIs(j: Job, m: seq<byte>, k: nat, inb: seq<byte>, mask: seq<byte>)
    requires Ok(j, |m|) && k < j.Count() && |inb| == |mask| == j.block && 0 < j.block
    requires 0 <= InAt(j, k) && InAt(j, k) + j.block <= |m|
    requires inb == if j.flags.counter then Lanes.Bump(Slice(m, InAt(j, k), j.block), k) else Slice(m, InAt(j, k), j.block)
    requires j.hasXor ==> 0 <= XorAt(j, k) && XorAt(j, k) + j.block <= |m| && mask == Slice(m, XorAt(j, k), j.block)
    ensures |j.f(inb)| == |j.f(Xor(inb, mask))| == j.block
    ensures Value(j, m, 0, k)
         == if !j.hasXor then j.f(inb) else if j.flags.xorInput then j.f(Xor(inb, mask)) else Xor(j.f(inb), mask)
  {
    hide InAt, XorAt, Xor, Lanes.Bump, Job.Count;
  }

  /**
   In a safe layout, whatever the batches and the direction, the output block at offset `o` is
   the block function's value of the input block at `o`, or of the counter with its last octet i
   further, with the mask at `o` before it, after it, or absent; all of the memory before the call.
   */
  lemma CallIs(j: Job, m: seq<byte>, sizes: seq<nat>, i: nat, o: nat, inb: seq<byte>, mask: seq<byte>)
    requires Ok(j, |m|) && Positive(sizes) && Safe(j) && !j.flags.stationary && i < j.Count()
    requires o == (if j.flags.reverse then j.length % j.block else 0) + (if j.block == 8 then 8 * i else 16 * i)
    requires |inb| == j.block && |mask| == j.block
    requires o + j.block <= j.length && j.output + o + j.block <= |m|
    requires j.flags.counter ==> (
      && j.input + j.block <= |m|
      && inb == m[j.input..j.input + j.block - 1] + [(m[j.input + j.block - 1] + i) % 256])
    requires !j.flags.counter ==> j.input + o + j.block <= |m| && inb == m[j.input + o..j.input + o + j.block]
    requires j.hasXor ==> j.xor + o + j.block <= |m| && mask == m[j.xor + o..j.xor + o + j.block]
    ensures |j.f(inb)| == |j.f(Xor(inb, mask))| == j.block && |Processed(j, m, sizes)| == |m|
    ensures Processed(j, m, sizes)[j.output + o..j.output + o + j.block]
         == if !j.hasXor then j.f(inb) else if j.flags.xorInput then j.f(Xor(inb, mask)) else Xor(j.f(inb), mask)
  {
    hide Processed, Safe, Outcome, Value, OutAt, XorAt, Xor, Job.Count, Lanes.Bump;
    var k: int := if j.flags.reverse then j.Count() - 1 - i else i;
    BlockAddress(j, |m|, i, o, k);
    EveryBlockOnce(j, m, sizes);
    OutcomeValue(j, m, Processed(j, m, sizes), k);
    if j.flags.counter { CounterBlock(m, j.input, j.block, i, inb); }
    ValueIs(j, m, k, inb, mask);
  }

  // ----- CBC decryption in place

  /** n blocks from `at`, a block function, and room for the initial value in front. */
  ghost predicate CbcArea(d: seq<byte> -> seq<byte>, size: nat, at: nat, n: nat, m: seq<byte>) {
    && (size == 8 || size == 16) && BlockFunction(d, size)
    && size <= at && 0 <= Span(size, n) && at + Span(size, n) <= |m|
  }

  /** Input and output the same area, the mask one block behind, from the end to the start. */
  function CbcDecryptJob(d: seq<byte> -> seq<byte>, size: nat, at: nat, n: nat, parallel: bool): Job
    requires at >= size && Span(size, n) >= 0
  {
    Job(size, d, at, true, at - size, at, Span(size, n), Flags(false, false, false, true, parallel))
  }

  /** The i-th block from `at`. */
  function BlockAt(m: seq<byte>, size: nat, at: nat, i: nat): seq<byte> {
    if 0 <= at + Span(size, i) && at + Span(size, i) + size <= |m| then Slice(m, at + Span(size, i), size) else []
  }

  /** This call is one in which no block is read after it was overwritten. */
  lemma CbcIsSafe(d: seq<byte> -> seq<byte>, size: nat, at: nat, n: nat, parallel: bool, m: seq<byte>)
    requires CbcArea(d, size, at, n, m)
    ensures var j := CbcDecryptJob(d, size, at, n, parallel); Ok(j, |m|) && Safe(j) && j.Count() == n
  {}

  lemma CbcAddresses(d: seq<byte> -> seq<byte>, size: nat, at: nat, n: nat, parallel: bool, m: seq<byte>, i: nat)
    requires CbcArea(d, size, at, n, m) && i < n
    ensures var j := CbcDecryptJob(d, size, at, n, parallel);
      && OutAt(j, n - 1 - i) == InAt(j, n - 1 - i) == at + Span(size, i) && XorAt(j, n - 1 - i) == at - size + Span(size, i)
      && 0 <= at - size + Span(size, i) && at + Span(size, i) + size <= |m|
  {}

  lemma CbcValue(j: Job, m: seq<byte>, k: nat)
    requires Ok(j, |m|) && k < j.Count() && j.hasXor && !j.flags.xorInput && !j.flags.counter
    ensures 0 <= InAt(j, k) && InAt(j, k) + j.block <= |m| && 0 <= XorAt(j, k) && XorAt(j, k) + j.block <= |m|
    ensures |j.f(Slice(m, InAt(j, k), j.block))| == j.block
    ensures Value(j, m, 0, k) == Xor(j.f(Slice(m, InAt(j, k), j.block)), Slice(m, XorAt(j, k), j.block))
  {
    BlockFits(j, |m|, k);
  }

  /** Every block becomes D(block) xor the block before it, of the original buffer. */
  lemma CbcDecryptInPlace(d: seq<byte> -> seq<byte>, size: nat, at: nat, n: nat, parallel: bool,
                          m: seq<byte>, sizes: seq<nat>, i: nat)
    requires CbcArea(d, size, at, n, m) && Positive(sizes) && i < n
    ensures var j := CbcDecryptJob(d, size, at, n, parallel);
      && Ok(j, |m|) && |d(BlockAt(m, size, at, i))| == |BlockAt(m, size, at - size, i)| == size
      && BlockAt(Processed(j, m, sizes), size, at, i) == Xor(d(BlockAt(m, size, at, i)), BlockAt(m, size, at - size, i))
  {
    hide Processed, Ok, Safe, Value, InAt, OutAt, XorAt, Outcome, Job.Count, Slice, Xor;
    CbcIsSafe(d, size, at, n, parallel, m);
    var j := CbcDecryptJob(d, size, at, n, parallel);
    EveryBlockOnce(j, m, sizes);
    OutcomeValue(j, m, Processed(j, m, sizes), n - 1 - i);
    CbcAddresses(d, size, at, n, parallel, m, i);
    CbcValue(j, m, n - 1 - i);
  }

  lemma OutcomeValue(j: Job, m: seq<byte>, m': seq<byte>, k: nat)
    requires Ok(j, |m|) && k < j.Count() && Outcome(j, m, m', 0, j.Count())
    ensures |m'| == |m| && 0 <= OutAt(j, k) && OutAt(j, k) + j.block <= |m|
    ensures Slice(m', OutAt(j, k), j.block) == Value(j, m, 0, k)
    ensures j.flags.counter ==> (
      && j.input + j.block <= |m| && 0 < j.block
      && Slice(m', j.input, j.block) == Lanes.Bump(Slice(m, j.input, j.block), j.Count()))
  {
    BlockFits(j, |m|, k);
    assert HasValue(j, m, m', 0, k);
  }

  /** Block i holds E(plaintext xor the block before it). */
  ghost predicate CbcEncrypted(e: seq<byte> -> seq<byte>, size: nat, at: nat, m: seq<byte>, plain: seq<byte>, i: nat) {
    && size <= at && |plain| == |BlockAt(m, size, at - size, i)| == size
    && BlockAt(m, size, at, i) == e(Xor(plain, BlockAt(m, size, at - size, i)))
  }

  lemma CbcBlockDecrypted(e: seq<byte> -> seq<byte>, d: seq<byte> -> seq<byte>, size: nat, at: nat, n: nat,
                          parallel: bool, m: seq<byte>, sizes: seq<nat>, plain: seq<byte>, i: nat)
    requires CbcArea(d, size, at, n, m) && Positive(sizes) && i < n
    requires forall b :: |b| == size ==> d(e(b)) == b
    requires CbcEncrypted(e, size, at, m, plain, i)
    ensures Ok(CbcDecryptJob(d, size, at, n, parallel), |m|)
    ensures BlockAt(Processed(CbcDecryptJob(d, size, at, n, parallel), m, sizes), size, at, i) == plain
  {
    hide Processed, BlockAt, Xor, Ok;
    CbcDecryptInPlace(d, size, at, n, parallel, m, sizes, i);
    var previous := BlockAt(m, size, at - size, i);
    assert d(e(Xor(plain, previous))) == Xor(plain, previous);
    XorInvolution(plain, previous);
  }

  /** A buffer of CBC ciphertext, behind its initial value, becomes the plaintext. */
  lemma CbcRoundTrip(e: seq<byte> -> seq<byte>, d: seq<byte> -> seq<byte>, size: nat, at: nat,
                     parallel: bool, m: seq<byte>, sizes: seq<nat>, plain: seq<seq<byte>>)
    requires CbcArea(d, size, at, |plain|, m) && Positive(sizes)
    requires forall b :: |b| == size ==> d(e(b)) == b
    requires forall i :: 0 <= i < |plain| ==> CbcEncrypted(e, size, at, m, plain[i], i)
    ensures var j := CbcDecryptJob(d, size, at, |plain|, parallel);
      && Ok(j, |m|)
      && forall i :: 0 <= i < |plain| ==> BlockAt(Processed(j, m, sizes), size, at, i) == plain[i]
  {
    hide Processed, Ok, CbcEncrypted, BlockAt, Safe;
    CbcIsSafe(d, size, at, |plain|, parallel, m);
    forall i | 0 <= i < |plain|
      ensures BlockAt(Processed(CbcDecryptJob(d, size, at, |plain|, parallel), m, sizes), size, at, i) == plain[i]
    {
      CbcBlockDecrypted(e, d, size, at, |plain|, parallel, m, sizes, plain[i], i);
    }
  }

  // ----- CBC encryption

  /** From the start to the end, the mask one block behind the output, xored in before the cipher. */
  function CbcEncryptJob(e: seq<byte> -> seq<byte>, size: nat, from: nat, at: nat, n: nat): Job
    requires at >= size && Span(size, n) >= 0
  {
    Job(size, e, from, true, at - size, at, Span(size, n), Flags(false, false, true, false, false))
  }

  /** Plaintext blocks from `from` on, which the ciphertext at `at` does not overtake. */
  ghost predicate CbcPlain(size: nat, from: nat, at: nat, n: nat, m: seq<byte>) {
    from + Span(size, n) <= |m| && Ahead(false, at, from, Span(size, n))
  }

  lemma CbcEncryptFits(e: seq<byte> -> seq<byte>, size: nat, from: nat, at: nat, n: nat, m: seq<byte>)
    requires CbcArea(e, size, at, n, m) && CbcPlain(size, from, at, n, m)
    ensures var j := CbcEncryptJob(e, size, from, at, n);
      Ok(j, |m|) && j.Count() == n && j.block == size && j.f == e && !j.flags.stationary && forall a :: !InCounter(j, a)
  {}

  lemma CbcEncryptAddresses(e: seq<byte> -> seq<byte>, size: nat, from: nat, at: nat, n: nat, m: seq<byte>, i: nat)
    requires CbcArea(e, size, at, n, m) && CbcPlain(size, from, at, n, m) && i < n
    ensures var j := CbcEncryptJob(e, size, from, at, n);
      && InAt(j, i) == from + Span(size, i) && OutAt(j, i) == at + Span(size, i) && XorAt(j, i) == at - size + Span(size, i)
      && 0 <= Span(size, i) && at + Span(size, i) + size <= |m| && from + Span(size, i) + size <= |m|
      && Avoids(j, 0, i, InAt(j, i)) && Avoids(j, i, n - i, XorAt(j, i)) && Avoids(j, i + 1, n - (i + 1), OutAt(j, i))
  {}

  lemma SameSlice(a: seq<byte>, b: seq<byte>, p: int, n: nat)
    requires 0 <= p && p + n <= |a| == |b| && forall i :: p <= i < p + n ==> a[i] == b[i]
    ensures Slice(a, p, n) == Slice(b, p, n)
  {
    forall t | 0 <= t < n ensures Slice(a, p, n)[t] == Slice(b, p, n)[t] {
      assert a[p + t] == b[p + t];
    }
  }

  /** A block that the rest of a run does not write is there in the end. */
  lemma SliceStays(j: Job, m: seq<byte>, k: nat, rest: nat, n: nat, p: int)
    requires Ok(j, |m|) && !j.flags.stationary && k + rest == n == j.Count() && 0 <= p && p + j.block <= |m|
    requires Avoids(j, k, rest, p)
    ensures Slice(SerialRun(j, m, 0, k), p, j.block) == Slice(SerialRun(j, m, 0, n), p, j.block)
  {
    hide SerialRun, Ok, Written, InCounter, Slice, Job.Count;
    forall a | p <= a < p + j.block ensures SerialRun(j, m, 0, k)[a] == SerialRun(j, m, 0, n)[a] {
      assert !Written(j, k, rest, a) && rest == n - k;
      RestKeeps(j, m, 0, k, n, k, a);
    }
    SameSlice(SerialRun(j, m, 0, k), SerialRun(j, m, 0, n), p, j.block);
  }

  /** A block that the first k blocks do not write is as it was. */
  lemma SliceUntouched(j: Job, m: seq<byte>, k: nat, p: int)
    requires Ok(j, |m|) && !j.flags.stationary && k <= j.Count() && 0 <= p && p + j.block <= |m|
    requires Avoids(j, 0, k, p)
    ensures Slice(SerialRun(j, m, 0, k), p, j.block) == Slice(m, p, j.block)
  {
    hide SerialRun, Ok, Written, InCounter, Slice, Job.Count;
    forall a | p <= a < p + j.block ensures SerialRun(j, m, 0, k)[a] == m[a] {
      RunTouches(j, m, 0, k, a);
    }
    SameSlice(SerialRun(j, m, 0, k), m, p, j.block);
  }

  lemma BlockAtIs(m: seq<byte>, size: nat, base: nat, i: nat, p: int)
    requires p == base + Span(size, i) && 0 <= p && p + size <= |m|
    ensures BlockAt(m, size, base, i) == Slice(m, p, size)
  {}

  /** What step i stores is in place in the end. */
  lemma CbcStored(j: Job, m: seq<byte>, i: nat, next: nat, rest: nat, p: int, x: int, o: int)
    requires Ok(j, |m|) && j.hasXor && j.flags.xorInput && !j.flags.counter && !j.flags.stationary
    requires next == i + 1 && next + rest == j.Count() && p == InAt(j, i) && x == XorAt(j, i) && o == OutAt(j, i)
    requires 0 <= p && p + j.block <= |m| && 0 <= x && x + j.block <= |m| && 0 <= o && o + j.block <= |m|
    requires Avoids(j, next, rest, o)
    ensures var s := SerialRun(j, m, 0, i);
      var b := j.f(Xor(Slice(s, p, j.block), Slice(s, x, j.block)));
      |b| == j.block && Slice(SerialRun(j, m, 0, j.Count()), o, j.block) == b
  {
    hide SerialRun, Ok, Avoids, Slice, Splice, Xor, Step, Job.Count, InAt, XorAt, OutAt;
    var s := SerialRun(j, m, 0, i);
    StepMaskBefore(j, s, i);
    SerialRunLast(j, m, 0, next);
    SpliceInside(s, o, j.f(Xor(Slice(s, p, j.block), Slice(s, x, j.block))));
    SliceStays(j, m, next, rest, j.Count(), o);
  }

  /** The serial call leaves E(plaintext xor the ciphertext block before it), for every block. */
  lemma CbcEncrypts(e: seq<byte> -> seq<byte>, size: nat, from: nat, at: nat, n: nat, m: seq<byte>, i: nat)
    requires CbcArea(e, size, at, n, m) && CbcPlain(size, from, at, n, m) && i < n
    ensures var j := CbcEncryptJob(e, size, from, at, n);
      && Ok(j, |m|) && j.Count() == n
      && CbcEncrypted(e, size, at, SerialRun(j, m, 0, n), BlockAt(m, size, from, i), i)
  {
    var j := CbcEncryptJob(e, size, from, at, n);
    CbcEncryptFits(e, size, from, at, n, m);
    CbcEncryptAddresses(e, size, from, at, n, m, i);
    assert j.hasXor && j.flags.xorInput && !j.flags.counter;
    hide *;
    CbcEncryptBlock(j, m, n, i, i + 1, n - i, n - (i + 1), InAt(j, i), XorAt(j, i), OutAt(j, i));
    IsEncrypted(e, size, from, at, m, SerialRun(j, m, 0, n), i, InAt(j, i), XorAt(j, i), OutAt(j, i));
  }

  lemma IsEncrypted(e: seq<byte> -> seq<byte>, size: nat, from: nat, at: nat, m: seq<byte>, m': seq<byte>, i: nat,
                    p: int, x: int, o: int)
    requires size <= at && |m'| == |m| && p == from + Span(size, i) && x == at - size + Span(size, i) && o == at + Span(size, i)
    requires 0 <= p && p + size <= |m| && 0 <= x && x + size <= |m| && 0 <= o && o + size <= |m|
    requires Slice(m', o, size) == e(Xor(Slice(m, p, size), Slice(m', x, size)))
    ensures CbcEncrypted(e, size, at, m', BlockAt(m, size, from, i), i)
  {
    BlockAtIs(m, size, from, i, p);
    BlockAtIs(m', size, at - size, i, x);
    BlockAtIs(m', size, at, i, o);
    hide BlockAt, Slice, Xor;
  }

  lemma CbcEncryptBlock(j: Job, m: seq<byte>, n: nat, i: nat, next: nat, left: nat, rest: nat, p: int, x: int, o: int)
    requires Ok(j, |m|) && j.hasXor && j.flags.xorInput && !j.flags.counter && !j.flags.stationary
    requires next == i + 1 && next + rest == i + left == n == j.Count()
    requires p == InAt(j, i) && x == XorAt(j, i) && o == OutAt(j, i)
    requires 0 <= p && p + j.block <= |m| && 0 <= x && x + j.block <= |m| && 0 <= o && o + j.block <= |m|
    requires Avoids(j, 0, i, p) && Avoids(j, i, left, x) && Avoids(j, next, rest, o)
    ensures var m' := SerialRun(j, m, 0, n);
      Slice(m', o, j.block) == j.f(Xor(Slice(m, p, j.block), Slice(m', x, j.block)))
  {
    hide *;
    SliceUntouched(j, m, i, p);
    SliceStays(j, m, i, left, n, x);
    CbcStored(j, m, i, next, rest, p, x, o);
  }

  /** Decrypting in place what was encrypted gives the plaintext, whatever the batches. */
  lemma CbcComposes(e: seq<byte> -> seq<byte>, d: seq<byte> -> seq<byte>, size: nat, from: nat, at: nat, n: nat,
                    parallel: bool, m: seq<byte>, sizes: seq<nat>, i: nat)
    requires CbcArea(e, size, at, n, m) && CbcArea(d, size, at, n, m) && CbcPlain(size, from, at, n, m)
    requires Positive(sizes) && i < n && forall b :: |b| == size ==> d(e(b)) == b
    ensures var j, j' := CbcEncryptJob(e, size, from, at, n), CbcDecryptJob(d, size, at, n, parallel);
      && Ok(j, |m|) && j.Count() == n && Ok(j', |m|)
      && BlockAt(Processed(j', SerialRun(j, m, 0, n), sizes), size, at, i) == BlockAt(m, size, from, i)
  {
    var j := CbcEncryptJob(e, size, from, at, n);
    CbcEncrypts(e, size, from, at, n, m, i);
    CbcIsSafe(d, size, at, n, parallel, m);
    hide SerialRun, Ok, Processed, BlockAt, Safe, CbcEncrypted, Job.Count, CbcPlain;
    CbcBlockDecrypted(e, d, size, at, n, parallel, SerialRun(j, m, 0, n), sizes, BlockAt(m, size, from, i), i);
  }

  lemma BlockOfAddress(size: nat, at: nat, n: nat, a: nat) returns (i: nat)
    requires (size == 8 || size == 16) && at <= a < at + Span(size, n)
    ensures i < n && 0 <= Span(size, i) && at + Span(size, i) <= a < at + Span(size, i) + size
  {
    i := if size == 8 then (a - at) / 8 else (a - at) / 16;
  }

  /** Outside the encrypted area the two calls leave every octet as it was. */
  lemma CbcElsewhere(e: seq<byte> -> seq<byte>, d: seq<byte> -> seq<byte>, size: nat, at: nat, n: nat,
                     parallel: bool, m: seq<byte>, sizes: seq<nat>, a: nat)
    requires CbcArea(e, size, at, n, m) && CbcArea(d, size, at, n, m) && CbcPlain(size, at, at, n, m)
    requires Positive(sizes) && a < |m| && !(at <= a < at + Span(size, n))
    ensures var j, j' := CbcEncryptJob(e, size, at, at, n), CbcDecryptJob(d, size, at, n, parallel);
      && Ok(j, |m|) && j.Count() == n && Ok(j', |m|)
      && |Processed(j', SerialRun(j, m, 0, n), sizes)| == |m|
      && Processed(j', SerialRun(j, m, 0, n), sizes)[a] == m[a]
  {
    var j, j' := CbcEncryptJob(e, size, at, at, n), CbcDecryptJob(d, size, at, n, parallel);
    CbcEncryptFits(e, size, at, at, n, m);
    CbcIsSafe(d, size, at, n, parallel, m);
    assert !Written(j, 0, n, a) && !Written(j', 0, n, a) && !InCounter(j', a);
    hide SerialRun, Ok, Processed, Safe, Job.Count, CbcPlain, Written, InCounter, HasValue, Slice;
    RunTouches(j, m, 0, n, a);
    EveryBlockOnce(j', SerialRun(j, m, 0, n), sizes);
  }

  /** Encrypting in place and decrypting in place restores the memory. */
  lemma CbcInPlaceRestores(e: seq<byte> -> seq<byte>, d: seq<byte> -> seq<byte>, size: nat, at: nat, n: nat,
                           parallel: bool, m: seq<byte>, sizes: seq<nat>)
    requires CbcArea(e, size, at, n, m) && CbcArea(d, size, at, n, m)
    requires Positive(sizes) && forall b :: |b| == size ==> d(e(b)) == b
    ensures var j, j' := CbcEncryptJob(e, size, at, at, n), CbcDecryptJob(d, size, at, n, parallel);
      && Ok(j, |m|) && j.Count() == n && Ok(j', |m|)
      && Processed(j', SerialRun(j, m, 0, n), sizes) == m
  {
    var j, j' := CbcEncryptJob(e, size, at, at, n), CbcDecryptJob(d, size, at, n, parallel);
    assert CbcPlain(size, at, at, n, m);
    CbcEncryptFits(e, size, at, at, n, m);
    CbcIsSafe(d, size, at, n, parallel, m);
    var r: seq<byte> := Processed(j', SerialRun(j, m, 0, n), sizes);
    EveryBlockOnce(j', SerialRun(j, m, 0, n), sizes);
    assert |r| == |m|;
    hide SerialRun, Ok, Processed, Safe, Outcome, Job.Count, CbcPlain, BlockAt;
    forall a | 0 <= a < |m| ensures r[a] == m[a] {
      if at <= a < at + Span(size, n) {
        var i := BlockOfAddress(size, at, n, a);
        CbcComposes(e, d, size, at, at, n, parallel, m, sizes, i);
        BlockOctet(r, m, size, at, i, a);
      } else {
        CbcElsewhere(e, d, size, at, n, parallel, m, sizes, a);
      }
    }
  }

  lemma BlockOctet(r: seq<byte>, m: seq<byte>, size: nat, at: nat, i: nat, a: nat)
    requires |r| == |m| && 0 <= Span(size, i) && at + Span(size, i) <= a < at + Span(size, i) + size <= |m|
    requires BlockAt(r, size, at, i) == BlockAt(m, size, at, i)
    ensures r[a] == m[a]
  {
    SliceAt(r, at + Span(size, i), size, a);
    SliceAt(m, at + Span(size, i), size, a);
  }

  // ----- the forward direction in place

  /** The same areas from the start to the end, two blocks of 16 octets. */
  function ForwardJob(d: seq<byte> -> seq<byte>, parallel: bool): Job {
    Job(16, d, 16, true, 0, 16, 32, Flags(false, false, false, false, parallel))
  }

  /**
   Here batches and single blocks part: the second block is masked with the first ciphertext
   block in a batch, and with the first plaintext block by the serial loop. The results agree
   only if these two happen to be equal.
   */
  lemma ForwardInPlaceDiffers(d: seq<byte> -> seq<byte>, m: seq<byte>)
    requires BlockFunction(d, 16) && |m| == 48
    ensures Ok(ForwardJob(d, true), 48) && Ok(ForwardJob(d, false), 48) && Positive([6, 2])
    ensures !Safe(ForwardJob(d, true)) && |d(m[16..32])| == |d(m[32..])| == 16
    ensures var batch := Processed(ForwardJob(d, true), m, [6, 2]);
      var serial := Processed(ForwardJob(d, false), m, [6, 2]);
      && |batch| == |serial| == 48
      && batch[32..] == Xor(d(m[32..]), m[16..32])
      && serial[32..] == Xor(d(m[32..]), Xor(d(m[16..32]), m[..16]))
      && (batch == serial <==> m[16..32] == Xor(d(m[16..32]), m[..16]))
  {
    hide Processed, Ok, Safe, Xor, Positive;
    ForwardIsUnsafe(d);
    ForwardBatch(d, m);
    ForwardSerial(d, m);
    XorCancels(d(m[32..]), m[16..32], Xor(d(m[16..32]), m[..16]));
    SameFront(Processed(ForwardJob(d, true), m, [6, 2]), Processed(ForwardJob(d, false), m, [6, 2]), 32);
  }

  lemma ForwardIsUnsafe(d: seq<byte> -> seq<byte>)
    ensures !Safe(ForwardJob(d, true))
  {}

  lemma SameFront(a: seq<byte>, b: seq<byte>, n: nat)
    requires |a| == |b| >= n && a[..n] == b[..n]
    ensures a == b <==> a[n..] == b[n..]
  {
    assert a == a[..n] + a[n..] && b == b[..n] + b[n..];
  }

  lemma ForwardWords(d: seq<byte> -> seq<byte>, m: seq<byte>)
    requires BlockFunction(d, 16) && |m| == 48
    ensures Batchable(ForwardJob(d, true), 48, 0, 2) && |d(m[16..32])| == |d(m[32..])| == 16
    ensures BatchWord(ForwardJob(d, true), m, 0, 2, 0) == Xor(d(m[16..32]), m[..16])
    ensures BatchWord(ForwardJob(d, true), m, 0, 2, 1) == Xor(d(m[32..]), m[16..32])
  {
    var j := ForwardJob(d, true);
    assert Slice(m, 16, 16) == m[16..32] && Slice(m, 32, 16) == m[32..] && Slice(m, 0, 16) == m[..16];
    hide Slice, Xor;
    assert InWord(j, m, 0, 2, 0) == Slice(m, 16, 16) && MaskWord(j, m, 0, 2, 0) == Slice(m, 0, 16);
    assert InWord(j, m, 0, 2, 1) == Slice(m, 32, 16) && MaskWord(j, m, 0, 2, 1) == Slice(m, 16, 16);
    hide InWord, MaskWord;
  }

  lemma ForwardStored(d: seq<byte> -> seq<byte>, m: seq<byte>)
    requires BlockFunction(d, 16) && |m| == 48
    ensures Batchable(ForwardJob(d, true), 48, 0, 2)
    ensures var s := Stored(ForwardJob(d, true), m, 0, 2, 2);
      && |BatchWord(ForwardJob(d, true), m, 0, 2, 0)| == 16
      && s[..32] == m[..16] + BatchWord(ForwardJob(d, true), m, 0, 2, 0)
      && s[32..] == BatchWord(ForwardJob(d, true), m, 0, 2, 1)
  {
    var j := ForwardJob(d, true);
    StoredNone(j, m, 0, 2);
    StoredLast(j, m, 0, 2, 1);
    StoredLast(j, m, 0, 2, 2);
    var w0, w1 := BatchWord(j, m, 0, 2, 0), BatchWord(j, m, 0, 2, 1);
    assert Stored(j, m, 0, 2, 2) == Splice(Splice(m, 16, w0), 32, w1);
    hide Stored, BatchWord;
  }

  /** With two blocks left only the loop over pairs runs, once. */
  lemma ForwardIsOneBatch(d: seq<byte> -> seq<byte>, m: seq<byte>)
    requires BlockFunction(d, 16) && |m| == 48
    ensures Ok(ForwardJob(d, true), 48) && Batchable(ForwardJob(d, true), 48, 0, 2) && Positive([6, 2])
    ensures Processed(ForwardJob(d, true), m, [6, 2]) == Stored(ForwardJob(d, true), m, 0, 2, 2)
  {
    var j := ForwardJob(d, true);
    assert Ok(j, 48) && j.Count() == 2;
    hide Stored, SerialRun, Batches, Batched, Ok;
    TwoBatchSizes(j, m, 6, 2);
    BatchesStep(j, m, 0, 6);
    OneBatchSize(j, m, 0, 2);
    BatchesStep(j, m, 0, 2);
    BatchesStep(j, Stored(j, m, 0, 2, 2), 2, 2);
    SerialRunNone(j, Stored(j, m, 0, 2, 2), 2);
  }

  lemma ForwardBatch(d: seq<byte> -> seq<byte>, m: seq<byte>)
    requires BlockFunction(d, 16) && |m| == 48
    ensures Ok(ForwardJob(d, true), 48) && Positive([6, 2]) && |d(m[16..32])| == |d(m[32..])| == 16
    ensures var batch := Processed(ForwardJob(d, true), m, [6, 2]);
      |batch| == 48 && batch[..32] == m[..16] + Xor(d(m[16..32]), m[..16]) && batch[32..] == Xor(d(m[32..]), m[16..32])
  {
    hide Processed, Stored, BatchWord, Xor;
    ForwardIsOneBatch(d, m);
    ForwardStored(d, m);
    ForwardWords(d, m);
  }

  lemma ForwardSerial(d: seq<byte> -> seq<byte>, m: seq<byte>)
    requires BlockFunction(d, 16) && |m| == 48
    ensures Ok(ForwardJob(d, false), 48) && Positive([6, 2]) && |d(m[16..32])| == |d(m[32..])| == 16
    ensures var serial := Processed(ForwardJob(d, false), m, [6, 2]);
      && |serial| == 48 && serial[..32] == m[..16] + Xor(d(m[16..32]), m[..16])
      && serial[32..] == Xor(d(m[32..]), Xor(d(m[16..32]), m[..16]))
  {
    var j := ForwardJob(d, false);
    ForwardIsSerial(d, m);
    ForwardSteps(d, m);
    var x0 := Xor(d(m[16..32]), m[..16]);
    var x1 := Xor(d(m[32..]), x0);
    hide Processed, Xor;
    assert Splice(Splice(m, 16, x0), 32, x1) == m[..16] + x0 + x1;
  }

  lemma ForwardIsSerial(d: seq<byte> -> seq<byte>, m: seq<byte>)
    requires BlockFunction(d, 16) && |m| == 48
    ensures Ok(ForwardJob(d, false), 48) && ForwardJob(d, false).Count() == 2 && Positive([6, 2])
    ensures Processed(ForwardJob(d, false), m, [6, 2])
         == Step(ForwardJob(d, false), Step(ForwardJob(d, false), m, 0), 1)
  {
    var j := ForwardJob(d, false);
    assert Ok(j, 48) && j.Count() == 2;
    hide SerialRun, Batched, Step, Ok;
    BatchedStep(j, m, 0, []);
    SerialRunNone(j, m, 0);
    SerialRunLast(j, m, 0, 1);
    SerialRunLast(j, m, 0, 2);
  }

  lemma ForwardSteps(d: seq<byte> -> seq<byte>, m: seq<byte>)
    requires BlockFunction(d, 16) && |m| == 48
    ensures Ok(ForwardJob(d, false), 48) && ForwardJob(d, false).Count() == 2
    ensures |d(m[16..32])| == |d(m[32..])| == 16
    ensures var x0 := Xor(d(m[16..32]), m[..16]);
      Step(ForwardJob(d, false), Step(ForwardJob(d, false), m, 0), 1)
        == Splice(Splice(m, 16, x0), 32, Xor(d(m[32..]), x0))
  {
    var j := ForwardJob(d, false);
    assert Ok(j, 48) && j.Count() == 2;
    StepMaskAfter(j, m, 0);
    assert Slice(m, 16, 16) == m[16..32] && Slice(m, 0, 16) == m[..16];
    var x0 := Xor(d(m[16..32]), m[..16]);
    var m1 := Splice(m, 16, x0);
    SpliceInside(m, 16, x0);
    SpliceOutside(m, 16, x0, 32, 16);
    assert Slice(m, 32, 16) == m[32..];
    hide Step, Xor, Slice, Splice, Ok;
    StepMaskAfter(j, m1, 1);
  }

  // ----- counter mode

  /**
   Block i is masked with the transform of the counter whose last octet is i further, modulo
   256, and the stored counter ends as many steps further as there are blocks.
   */
  lemma CounterMode(j: Job, m: seq<byte>, sizes: seq<nat>, i: nat)
    requires Ok(j, |m|) && Positive(sizes) && Safe(j) && i < j.Count()
    requires j.flags.counter && j.hasXor && !j.flags.xorInput
    ensures !j.flags.stationary && 0 <= OutAt(j, i) && OutAt(j, i) + j.block <= |m|
    ensures 0 <= XorAt(j, i) && XorAt(j, i) + j.block <= |m| && 0 < j.block && j.input + j.block <= |m|
    ensures var m', c := Processed(j, m, sizes), Slice(m, j.input, j.block);
      && |m'| == |m| && |j.f(Lanes.Bump(c, i))| == j.block
      && Slice(m', OutAt(j, i), j.block) == Xor(j.f(Lanes.Bump(c, i)), Slice(m, XorAt(j, i), j.block))
      && Slice(m', j.input, j.block) == Lanes.Bump(c, j.Count())
  {
    EveryBlockOnce(j, m, sizes);
    BlockFits(j, |m|, i);
    hide Processed, Outcome, Safe;
    OutcomeValue(j, m, Processed(j, m, sizes), i);
  }

  /** Masking what was masked, from the same counter, gives the original back, whatever the batches were. */
  lemma CounterRoundTrip(j: Job, j': Job, m: seq<byte>, m2: seq<byte>, sizes: seq<nat>, sizes': seq<nat>, i: nat)
    requires Ok(j, |m|) && Safe(j) && Positive(sizes) && i < j.Count()
    requires Ok(j', |m2|) && Safe(j') && Positive(sizes') && i < j'.Count()
    requires j.flags.counter && j.hasXor && !j.flags.xorInput && j'.flags.counter && j'.hasXor && !j'.flags.xorInput
    requires j'.block == j.block && j'.f == j.f
    requires 0 < j.block && j.input + j.block <= |m| && j'.input + j.block <= |m2|
    requires Slice(m2, j'.input, j.block) == Slice(m, j.input, j.block)
    requires 0 <= OutAt(j, i) && OutAt(j, i) + j.block <= |m| && 0 <= XorAt(j', i) && XorAt(j', i) + j.block <= |m2|
    requires !j.flags.stationary && !j'.flags.stationary && |Processed(j, m, sizes)| == |m|
    requires Slice(m2, XorAt(j', i), j.block) == Slice(Processed(j, m, sizes), OutAt(j, i), j.block)
    ensures 0 <= OutAt(j', i) && OutAt(j', i) + j.block <= |m2| && 0 <= XorAt(j, i) && XorAt(j, i) + j.block <= |m|
    ensures |Processed(j', m2, sizes')| == |m2|
    ensures Slice(Processed(j', m2, sizes'), OutAt(j', i), j.block) == Slice(m, XorAt(j, i), j.block)
  {
    CounterMode(j, m, sizes, i);
    CounterMode(j', m2, sizes', i);
    hide Processed, Safe, Ok, Lanes.Bump, Xor;
    var key, p := j.f(Lanes.Bump(Slice(m, j.input, j.block), i)), Slice(m, XorAt(j, i), j.block);
    XorCommutes(key, p);
    XorCommutes(key, Xor(p, key));
    XorInvolution(p, key);
  }

  // ----- CBC-MAC

  /** The register is input and output at once and stays put; the message is the mask. */
  function MacJob(e: seq<byte> -> seq<byte>, size: nat, reg: nat, message: nat, length: nat): Job {
    Job(size, e, reg, true, message, reg, length, Flags(false, true, true, false, false))
  }

  /** The serial loop leaves the CBC-MAC of the message in the register and touches nothing else. */
  lemma {:induction false} StationaryIsMac(e: seq<byte> -> seq<byte>, size: nat, reg: nat, message: nat, length: nat,
                                           m: seq<byte>, n: nat)
    requires (size == 8 || size == 16) && BlockFunction(e, size)
    requires reg + size <= |m| && message + length <= |m| && Apart(reg, size, message, length)
    requires Span(size, n) <= length
    ensures MacReady(e, size, reg, message, length, m, n)
    ensures SerialRun(MacJob(e, size, reg, message, length), m, 0, n) == Splice(m, reg, MacOf(e, size, reg, message, m, n))
  {
    hide SerialRun, Step, Ok, MacOf, Job.Count, MacJob, Slice, Splice;
    MacIsReady(e, size, reg, message, length, m, n);
    var j := MacJob(e, size, reg, message, length);
    if n == 0 {
      SerialRunNone(j, m, 0);
      MacOfNothing(e, size, reg, message, m);
    } else {
      StationaryIsMac(e, size, reg, message, length, m, n - 1);
      SerialRunLast(j, m, 0, n);
      MacOfLast(e, size, reg, message, m, n);
      MacStep(e, size, reg, message, length, m, n - 1, MacOf(e, size, reg, message, m, n - 1));
    }
  }

  ghost predicate MacReady(e: seq<byte> -> seq<byte>, size: nat, reg: nat, message: nat, length: nat, m: seq<byte>, n: nat) {
    && Ok(MacJob(e, size, reg, message, length), |m|) && n <= MacJob(e, size, reg, message, length).Count()
    && size > 0 && reg + size <= |m| && 0 <= Span(size, n) && message + Span(size, n) <= |m|
    && BlockFunction(e, size)
  }

  lemma MacIsReady(e: seq<byte> -> seq<byte>, size: nat, reg: nat, message: nat, length: nat, m: seq<byte>, n: nat)
    requires (size == 8 || size == 16) && BlockFunction(e, size)
    requires reg + size <= |m| && message + length <= |m| && Span(size, n) <= length
    ensures MacReady(e, size, reg, message, length, m, n)
  {}

  /** The CBC-MAC fold over the first n blocks of the message, from the register's content. */
  ghost function MacOf(e: seq<byte> -> seq<byte>, size: nat, reg: nat, message: nat, m: seq<byte>, n: nat): (r: seq<byte>)
    requires size > 0 && reg + size <= |m| && 0 <= Span(size, n) && message + Span(size, n) <= |m| && BlockFunction(e, size)
    ensures |r| == size
  {
    Dmac.Fold(Dmac.Cipher(size, e), Slice(m, reg, size), m[message..message + Span(size, n)])
  }

  lemma MacOfNothing(e: seq<byte> -> seq<byte>, size: nat, reg: nat, message: nat, m: seq<byte>)
    requires (size == 8 || size == 16) && reg + size <= |m| && message <= |m| && BlockFunction(e, size)
    ensures Splice(m, reg, MacOf(e, size, reg, message, m, 0)) == m
  {}

  lemma MacOfLast(e: seq<byte> -> seq<byte>, size: nat, reg: nat, message: nat, m: seq<byte>, n: nat)
    requires (size == 8 || size == 16) && reg + size <= |m| && message + Span(size, n) <= |m| && n > 0
    requires BlockFunction(e, size)
    ensures MacOf(e, size, reg, message, m, n)
         == e(Xor(MacOf(e, size, reg, message, m, n - 1), Slice(m, message + Span(size, n - 1), size)))
  {
    var c := Dmac.Cipher(size, e);
    var front, block := m[message..message + Span(size, n - 1)], Slice(m, message + Span(size, n - 1), size);
    assert m[message..message + Span(size, n)] == front + block;
    FoldLast(c, Slice(m, reg, size), front, block);
  }

  lemma FoldLast(c: Dmac.Cipher, reg: seq<byte>, front: seq<byte>, block: seq<byte>)
    requires Dmac.Fits(c, Dmac.MacState(reg, 0)) && |block| == c.size
    ensures Dmac.Fold(c, reg, front + block) == c.apply(Xor(Dmac.Fold(c, reg, front), block))
  {
    var m := front + block;
    assert m[..|m| - c.size] == front && m[|m| - c.size..] == block;
  }

  lemma MacStep(e: seq<byte> -> seq<byte>, size: nat, reg: nat, message: nat, length: nat, m: seq<byte>, k: nat, r: seq<byte>)
    requires (size == 8 || size == 16) && BlockFunction(e, size)
    requires reg + size <= |m| && message + length <= |m| && Apart(reg, size, message, length)
    requires Span(size, k) + size <= length && |r| == size
    ensures Ok(MacJob(e, size, reg, message, length), |m|) && k < MacJob(e, size, reg, message, length).Count()
    ensures Step(MacJob(e, size, reg, message, length), Splice(m, reg, r), k)
         == Splice(m, reg, e(Xor(r, Slice(m, message + Span(size, k), size))))
  {
    var j := MacJob(e, size, reg, message, length);
    assert Ok(j, |m|) && k < j.Count();
    assert XorAt(j, k) == message + Span(size, k) && InAt(j, k) == OutAt(j, k) == reg;
    hide Step, Slice, Splice, Xor, Ok, XorAt, InAt, OutAt, Job.Count;
    StepMaskBefore(j, Splice(m, reg, r), k);
    SpliceInside(m, reg, r);
    SpliceOutside(m, reg, r, message + Span(size, k), size);
    SpliceTwice(m, reg, r, e(Xor(r, Slice(m, message + Span(size, k), size))));
  }

  lemma SpliceTwice(m: seq<byte>, p: nat, a: seq<byte>, b: seq<byte>)
    requires |a| == |b| && p + |a| <= |m|
    ensures Splice(Splice(m, p, a), p, b) == Splice(m, p, b)
  {}
}
