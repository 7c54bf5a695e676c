/**
 Processing many cipher blocks in one call: what one block at a time does to memory, what a
 batch of vector words does, and when the two are the same. Input, xor mask and output are
 three offsets into one memory, so that every overlap between them can be expressed.
 */
module AdvBlocks {
  import opened Bytes
  import Ciphers
  import opened XorBlocks
  import opened Lanes

  /** The bits of FlagsForAdvancedProcessBlocks. */
  datatype Flags = Flags(counter: bool, stationary: bool, xorInput: bool, reverse: bool, parallel: bool)

  /** One call: block size, block function, the three offsets, length in octets, and flags. */
  datatype Job = Job(block: nat, f: seq<byte> -> seq<byte>, input: nat, hasXor: bool, xor: nat, output: nat,
                     length: nat, flags: Flags)
  {
    /** Does the input pointer stay where it is? */
    predicate Fixed() { flags.counter || flags.stationary }

    /** The number of whole blocks. */
    function Count(): nat { if block == 8 then length / 8 else length / 16 }
  }

  /** n blocks of b octets */
  function Span(b: nat, n: int): int {
    if b == 8 then 8 * n else 16 * n
  }

  ghost predicate WellFormed(j: Job) {
    && (j.block == 8 || j.block == 16)
    && Ciphers.BlockFunction(j.f, j.block)
    && !(j.flags.reverse && j.Fixed())
  }

  ghost predicate InMemory(j: Job, size: nat) {
    && j.input + (if j.Fixed() then j.block else j.length) <= size
    && (j.hasXor ==> j.xor + j.length <= size)
    && j.output + (if j.flags.stationary then j.block else j.length) <= size
  }

  ghost predicate Ok(j: Job, size: nat) {
    WellFormed(j) && InMemory(j, size)
  }

  // ----- addresses, in the order of processing

  /** Where the k-th processed block lies from the start of its area. */
  function Offset(j: Job, k: nat): int {
    if j.flags.reverse then j.length - Span(j.block, k + 1) else Span(j.block, k)
  }

  function InAt(j: Job, k: nat): int { j.input + if j.Fixed() then 0 else Offset(j, k) }

  function XorAt(j: Job, k: nat): int { j.xor + Offset(j, k) }

  function OutAt(j: Job, k: nat): int { j.output + if j.flags.stationary then 0 else Offset(j, k) }

  function Slice(m: seq<byte>, p: int, n: nat): (s: seq<byte>)
    requires 0 <= p && p + n <= |m|
    ensures |s| == n
  {
    m[p..p + n]
  }

  function Splice(m: seq<byte>, p: int, w: seq<byte>): (m': seq<byte>)
    requires 0 <= p && p + |w| <= |m|
    ensures |m'| == |m|
  {
    m[..p] + w + m[p + |w|..]
  }

  lemma BlockFits(j: Job, size: nat, k: nat)
    requires Ok(j, size) && k < j.Count()
    ensures 0 <= Offset(j, k) && Offset(j, k) + j.block <= j.length
    ensures 0 <= InAt(j, k) && InAt(j, k) + j.block <= size
    ensures j.hasXor ==> 0 <= XorAt(j, k) && XorAt(j, k) + j.block <= size
    ensures 0 <= OutAt(j, k) && OutAt(j, k) + j.block <= size
    ensures j.flags.counter ==> j.input + j.block <= size
  {}

  // ----- one block at a time

  /** The block function with the mask before, after, or absent. */
  function Transform(j: Job, inb: seq<byte>, mask: seq<byte>): seq<byte>
    requires j.hasXor ==> |mask| == |inb| && (|j.f(inb)| <= |mask|)
    requires j.hasXor && j.flags.xorInput ==> |j.f(Xor(inb, mask))| == |inb|
  {
    if !j.hasXor then j.f(inb)
    else if j.flags.xorInput then j.f(Xor(inb, mask))
    else Xor(j.f(inb), mask)
  }

  function Counted(j: Job, m: seq<byte>, n: nat): (m': seq<byte>)
    requires j.flags.counter ==> 0 < j.block && j.input + j.block <= |m|
    ensures |m'| == |m|
  {
    if j.flags.counter then Splice(m, j.input, Bump(Slice(m, j.input, j.block), n)) else m
  }

  ghost function Mask(j: Job, m: seq<byte>, k: nat): (b: seq<byte>)
    requires Ok(j, |m|) && k < j.Count()
    ensures j.hasXor ==> |b| == j.block
  {
    BlockFits(j, |m|, k);
    if j.hasXor then Slice(m, XorAt(j, k), j.block) else []
  }

  /** What the serial loop's body stores: the block transformed, with the mask read before or after counting. */
  ghost function StepResult(j: Job, m: seq<byte>, k: nat): (b: seq<byte>)
    requires Ok(j, |m|) && k < j.Count()
    ensures |b| == j.block
  {
    BlockFits(j, |m|, k);
    var mask := Mask(j, if j.flags.xorInput then m else Counted(j, m, 1), k);
    Transform(j, Slice(m, InAt(j, k), j.block), mask)
  }

  /** The serial loop's body: load, mask, count, transform, mask, store. */
  ghost function Step(j: Job, m: seq<byte>, k: nat): (m': seq<byte>)
    requires Ok(j, |m|) && k < j.Count()
    ensures |m'| == |m|
  {
    BlockFits(j, |m|, k);
    Splice(Counted(j, m, 1), OutAt(j, k), StepResult(j, m, k))
  }

  /** Blocks k, k+1, ..., k+n-1, one at a time. */
  ghost function SerialRun(j: Job, m: seq<byte>, k: nat, n: nat): (m': seq<byte>)
    requires Ok(j, |m|) && k + n <= j.Count()
    ensures |m'| == |m|
  {
    if n == 0 then m else Step(j, SerialRun(j, m, k, n - 1), k + n - 1)
  }

  lemma {:induction false} SerialRunSplit(j: Job, m: seq<byte>, k: nat, a: nat, b: nat)
    requires Ok(j, |m|) && k + a + b <= j.Count()
    ensures SerialRun(j, m, k, a + b) == SerialRun(j, SerialRun(j, m, k, a), k + a, b)
  {
    hide Step, Ok;
    if b > 0 { SerialRunSplit(j, m, k, a, b - 1); }
  }

  // ----- when no block is read after it was overwritten

  /** Two ranges without a common octet. */
  predicate Apart(p: int, m: int, q: int, n: int) {
    p + m <= q || q + n <= p
  }

  /** Writing block after block at `w` never reaches what is still to be read at `r`. */
  predicate Ahead(reverse: bool, w: int, r: int, total: int) {
    Apart(w, total, r, total) || if reverse then r <= w else w <= r
  }

  /** The last octet of a counter block, the only one that counting changes. */
  function Top(j: Job): int { j.input + j.block - 1 }

  /** The first n output blocks leave a counter block alone. */
  predicate CounterClear(j: Job, n: int) {
    j.flags.counter && n > 0 ==> Apart(j.input, j.block, j.output, Span(j.block, n))
  }

  /** No mask block contains the octet that counting changes. */
  predicate MaskMissesTop(j: Job) {
    j.flags.counter && j.hasXor ==> !(j.xor <= Top(j) < j.xor + Span(j.block, j.Count()))
  }

  /** No block's output reaches what one of the next `total` octets of processing still reads. */
  predicate SafeWithin(j: Job, total: int) {
    && !j.flags.stationary
    && (j.hasXor ==> Ahead(j.flags.reverse, j.output, j.xor, total))
    && (!j.flags.counter ==> Ahead(j.flags.reverse, j.output, j.input, total))
    && CounterClear(j, j.Count() - 1) && MaskMissesTop(j)
  }

  /** The condition a caller can check beforehand: no block is read after it was overwritten. */
  predicate Safe(j: Job) {
    SafeWithin(j, Span(j.block, j.Count())) && CounterClear(j, j.Count())
  }

  /** The input is its own mask, so the block function only ever sees zeros. */
  predicate SelfMasked(j: Job) {
    j.hasXor && j.flags.xorInput && !j.flags.counter && !j.flags.stationary && j.input == j.xor
  }

  /** For pointers that move, Ahead is exactly: no block's output touches a later block's input. */
  lemma AheadIsNoOverlap(j: Job, read: nat)
    requires WellFormed(j) && !j.flags.stationary && j.Count() >= 2
    ensures Ahead(j.flags.reverse, j.output, read, Span(j.block, j.Count())) <==>
      forall i: nat, k: nat :: i < k < j.Count() ==>
        Apart(OutAt(j, i), j.block, read + Offset(j, k), j.block)
  {
    var n, b, rev := j.Count(), j.block, j.flags.reverse;
    if !Ahead(rev, j.output, read, Span(b, n)) {
      // the distance between the areas falls into a later block
      var delta := if rev then read - j.output else j.output - read;
      assert 0 < delta < Span(b, n);
      var d: nat := if b == 8 then delta / 8 else delta / 16;
      var i, k: nat := 0, if d == 0 then 1 else d;
      assert i < k < n;
      assert !Apart(OutAt(j, i), b, read + Offset(j, k), b);
    }
  }

  // ----- the outcome, block by block

  /** The value of block i of a run that starts with block k, from the memory before the run. */
  ghost function Value(j: Job, m: seq<byte>, k: nat, i: nat): seq<byte>
    requires Ok(j, |m|) && k <= i < j.Count()
  {
    BlockFits(j, |m|, i);
    var inb := Slice(m, InAt(j, i), j.block);
    Transform(j, if j.flags.counter then Bump(inb, i - k) else inb, Mask(j, m, i))
  }

  /** Octets that blocks k to k+n-1 are written to. */
  predicate Written(j: Job, k: nat, n: nat, a: int) {
    if j.flags.reverse then j.output + j.length - Span(j.block, k + n) <= a < j.output + j.length - Span(j.block, k)
    else j.output + Span(j.block, k) <= a < j.output + Span(j.block, k + n)
  }

  predicate InCounter(j: Job, a: int) {
    j.flags.counter && a == Top(j)
  }

  /** The n blocks have their values, the counter has moved by q, and nothing else has changed. */
  ghost predicate Done(j: Job, m: seq<byte>, m': seq<byte>, k: nat, n: nat, q: nat)
    requires Ok(j, |m|) && k + n <= j.Count()
  {
    && |m'| == |m|
    && (forall i :: k <= i < k + n ==> HasValue(j, m, m', k, i))
    && (j.flags.counter ==> Slice(m', j.input, j.block) == Bump(Slice(m, j.input, j.block), q))
    && (forall a :: 0 <= a < |m| && !Written(j, k, n, a) && !InCounter(j, a) ==> m'[a] == m[a])
  }

  /** Every block has its value, and the counter has moved once for each. */
  ghost predicate Outcome(j: Job, m: seq<byte>, m': seq<byte>, k: nat, n: nat)
    requires Ok(j, |m|) && k + n <= j.Count()
  {
    Done(j, m, m', k, n, n)
  }

  ghost predicate HasValue(j: Job, m: seq<byte>, m': seq<byte>, k: nat, i: nat)
    requires Ok(j, |m|) && k <= i < j.Count() && |m'| == |m|
  {
    BlockFits(j, |m|, i);
    Slice(m', OutAt(j, i), j.block) == Value(j, m, k, i)
  }

  /** Every written octet belongs to one of the blocks. */
  lemma WrittenBlock(j: Job, k: nat, n: nat, a: int) returns (i: nat)
    requires WellFormed(j) && !j.flags.stationary && k + n <= j.Count() && Written(j, k, n, a)
    ensures k <= i < k + n && OutAt(j, i) <= a < OutAt(j, i) + j.block
  {
    var b := j.block;
    var d := if j.flags.reverse then j.output + j.length - Span(b, k) - 1 - a else a - j.output - Span(b, k);
    i := k + if b == 8 then d / 8 else d / 16;
  }

  /** What is done determines the memory. */
  lemma DoneIsUnique(j: Job, m: seq<byte>, m1: seq<byte>, m2: seq<byte>, k: nat, n: nat, q: nat)
    requires Ok(j, |m|) && !j.flags.stationary && k + n <= j.Count()
    requires Done(j, m, m1, k, n, q) && Done(j, m, m2, k, n, q)
    ensures m1 == m2
  {
    forall a | 0 <= a < |m| ensures m1[a] == m2[a] {
      if Written(j, k, n, a) {
        var i := WrittenBlock(j, k, n, a);
        BlockFits(j, |m|, i);
        assert HasValue(j, m, m1, k, i) && HasValue(j, m, m2, k, i);
        SliceAt(m1, OutAt(j, i), j.block, a);
        SliceAt(m2, OutAt(j, i), j.block, a);
      } else if InCounter(j, a) {
        SliceAt(m1, j.input, j.block, a);
        SliceAt(m2, j.input, j.block, a);
      }
    }
  }

  lemma SliceAt(m: seq<byte>, p: int, n: nat, a: int)
    requires 0 <= p <= a < p + n <= |m|
    ensures Slice(m, p, n)[a - p] == m[a]
  {}

  // ----- the serial loop reaches the outcome

  lemma SpliceInside(m: seq<byte>, p: int, w: seq<byte>)
    requires 0 <= p && p + |w| <= |m|
    ensures Slice(Splice(m, p, w), p, |w|) == w
  {}

  lemma SpliceOutside(m: seq<byte>, p: int, w: seq<byte>, q: int, n: nat)
    requires 0 <= p && p + |w| <= |m| && 0 <= q && q + n <= |m| && Apart(p, |w|, q, n)
    ensures Slice(Splice(m, p, w), q, n) == Slice(m, q, n)
  {}

  lemma SpliceElsewhere(m: seq<byte>, p: int, w: seq<byte>, a: int)
    requires 0 <= p && p + |w| <= |m| && 0 <= a < |m| && !(p <= a < p + |w|)
    ensures Splice(m, p, w)[a] == m[a]
  {}

  predicate Avoids(j: Job, k: nat, n: nat, p: int) {
    forall a :: p <= a < p + j.block ==> !Written(j, k, n, a) && !InCounter(j, a)
  }

  lemma AvoidedSlice(j: Job, m: seq<byte>, m1: seq<byte>, k: nat, n: nat, q: nat, p: int)
    requires Ok(j, |m|) && k + n <= j.Count() && Done(j, m, m1, k, n, q)
    requires 0 <= p && p + j.block <= |m| && Avoids(j, k, n, p)
    ensures Slice(m1, p, j.block) == Slice(m, p, j.block)
  {
    var x, y := Slice(m1, p, j.block), Slice(m, p, j.block);
    forall t | 0 <= t < j.block ensures x[t] == y[t] {
      assert p <= p + t < p + j.block;
      assert m1[p + t] == m[p + t];
    }
  }

  /** A later block of an area the output stays behind lies outside what earlier blocks have written. */
  lemma LaterBlockAhead(j: Job, base: nat, k: nat, n: nat, i: nat, a: int)
    requires WellFormed(j) && !j.flags.stationary && k + n <= i < j.Count()
    requires Ahead(j.flags.reverse, j.output, base, Span(j.block, j.Count()))
    requires base + Offset(j, i) <= a < base + Offset(j, i) + j.block
    ensures !Written(j, k, n, a)
  {}

  lemma LaterInputAvoids(j: Job, size: nat, k: nat, n: nat, i: nat)
    requires Ok(j, size) && !j.flags.stationary && !j.flags.counter && k + n <= i < j.Count()
    requires Ahead(j.flags.reverse, j.output, j.input, Span(j.block, j.Count()))
    ensures Avoids(j, k, n, InAt(j, i))
  {
    forall a | InAt(j, i) <= a < InAt(j, i) + j.block ensures !Written(j, k, n, a) {
      LaterBlockAhead(j, j.input, k, n, i, a);
    }
  }

  lemma LaterMaskAvoids(j: Job, size: nat, k: nat, n: nat, i: nat)
    requires Ok(j, size) && !j.flags.stationary && j.hasXor && MaskMissesTop(j) && k + n <= i < j.Count()
    requires Ahead(j.flags.reverse, j.output, j.xor, Span(j.block, j.Count()))
    ensures Avoids(j, k, n, XorAt(j, i))
  {
    MaskBlockMisses(j, size, i);
    forall a | XorAt(j, i) <= a < XorAt(j, i) + j.block ensures !Written(j, k, n, a) && !InCounter(j, a) {
      LaterBlockAhead(j, j.xor, k, n, i, a);
    }
  }

  lemma MaskBlockMisses(j: Job, size: nat, i: nat)
    requires Ok(j, size) && j.hasXor && MaskMissesTop(j) && i < j.Count()
    ensures j.flags.counter ==> !(XorAt(j, i) <= Top(j) < XorAt(j, i) + j.block)
  {}

  lemma OutputsApart(j: Job, t: nat, i: nat)
    requires WellFormed(j) && !j.flags.stationary && t < i
    ensures Apart(OutAt(j, t), j.block, OutAt(j, i), j.block)
  {}

  lemma CounterApart(j: Job, size: nat, n: nat, i: nat)
    requires Ok(j, size) && CounterClear(j, n) && !j.flags.stationary && j.flags.counter && i < n <= j.Count()
    ensures Apart(j.input, j.block, OutAt(j, i), j.block)
  {}

  /** Counting touches one octet only. */
  lemma CountedElsewhere(j: Job, m: seq<byte>, n: nat, a: int)
    requires Ok(j, |m|) && 0 <= a < |m| && !InCounter(j, a)
    requires j.flags.counter ==> 0 < j.block && j.input + j.block <= |m|
    ensures Counted(j, m, n)[a] == m[a]
  {
    if j.flags.counter && j.input <= a < j.input + j.block {
      var c := Slice(m, j.input, j.block);
      assert Bump(c, n)[a - j.input] == c[a - j.input];
    }
  }

  /** Counting again leaves every mask block as it was. */
  lemma MaskAfterCounting(j: Job, m: seq<byte>, n: nat, i: nat)
    requires Ok(j, |m|) && MaskMissesTop(j) && i < j.Count()
    requires j.flags.counter ==> 0 < j.block && j.input + j.block <= |m|
    ensures Mask(j, Counted(j, m, n), i) == Mask(j, m, i)
  {
    BlockFits(j, |m|, i);
    if j.flags.counter && j.hasXor {
      MaskBlockMisses(j, |m|, i);
      var x, y := Mask(j, Counted(j, m, n), i), Mask(j, m, i);
      forall t | 0 <= t < j.block ensures x[t] == y[t] {
        CountedElsewhere(j, m, n, XorAt(j, i) + t);
      }
    }
  }

  lemma ValueSize(j: Job, m: seq<byte>, k: nat, i: nat)
    requires Ok(j, |m|) && k <= i < j.Count()
    ensures |Value(j, m, k, i)| == j.block
  {
    BlockFits(j, |m|, i);
  }

  lemma DoneSize(j: Job, m: seq<byte>, m1: seq<byte>, k: nat, n: nat, q: nat)
    requires Ok(j, |m|) && k + n <= j.Count() && Done(j, m, m1, k, n, q)
    ensures |m1| == |m|
    ensures j.flags.counter ==> (
      && 0 < j.block && j.input + j.block <= |m|
      && Slice(m1, j.input, j.block) == Bump(Slice(m, j.input, j.block), q))
  {}

  lemma OutcomeIsDone(j: Job, m: seq<byte>, m1: seq<byte>, k: nat, n: nat)
    requires Ok(j, |m|) && k + n <= j.Count()
    ensures Outcome(j, m, m1, k, n) <==> Done(j, m, m1, k, n, n)
  {}

  // ----- what a step finds

  /** What the step of block k+n transforms is what block k+n's value is computed from. */
  ghost predicate ReadsValue(j: Job, m: seq<byte>, m1: seq<byte>, k: nat, n: nat)
    requires Ok(j, |m|) && k + n < j.Count() && |m1| == |m|
  {
    StepResult(j, m1, k + n) == Value(j, m, k, k + n)
  }

  /** All steps of a run do, whatever state they find that the blocks before them may leave. */
  ghost predicate ReadsWell(j: Job, m: seq<byte>, k: nat, n: nat)
    requires Ok(j, |m|) && k + n <= j.Count()
  {
    forall t: nat, m1 :: t < n && |m1| == |m| && Outcome(j, m, m1, k, t) ==> ReadsValue(j, m, m1, k, t)
  }

  /** The reads of one more step find what was there before the run, the counter aside. */
  lemma StepReads(j: Job, m: seq<byte>, m1: seq<byte>, k: nat, n: nat)
    requires Ok(j, |m|) && SafeWithin(j, Span(j.block, j.Count())) && k + n < j.Count() && Done(j, m, m1, k, n, n)
    ensures |m1| == |m|
    ensures 0 <= InAt(j, k + n) && InAt(j, k + n) + j.block <= |m| && j.block > 0
    ensures Slice(m1, InAt(j, k + n), j.block)
         == if j.flags.counter then Bump(Slice(m, InAt(j, k + n), j.block), n) else Slice(m, InAt(j, k + n), j.block)
    ensures Mask(j, m1, k + n) == Mask(j, m, k + n)
    ensures Mask(j, Counted(j, m1, 1), k + n) == Mask(j, m, k + n)
  {
    var i := k + n;
    hide Done, MaskMissesTop, CounterClear, Splice, Slice, Bump, Avoids, Offset, XorAt, OutAt, InMemory, Ahead;
    DoneSize(j, m, m1, k, n, n);
    BlockFits(j, |m|, i);
    MaskAfterCounting(j, m1, 1, i);
    if j.hasXor {
      LaterMaskAvoids(j, |m|, k, n, i);
      AvoidedSlice(j, m, m1, k, n, n, XorAt(j, i));
    }
    if !j.flags.counter {
      LaterInputAvoids(j, |m|, k, n, i);
      AvoidedSlice(j, m, m1, k, n, n, InAt(j, i));
    }
  }

  /** In a safe layout every step finds what it needs. */
  lemma SafeReadsWell(j: Job, m: seq<byte>, k: nat, n: nat)
    requires Ok(j, |m|) && SafeWithin(j, Span(j.block, j.Count())) && k + n <= j.Count()
    ensures ReadsWell(j, m, k, n)
  {
    forall t: nat, m1 | t < n && |m1| == |m| && Outcome(j, m, m1, k, t) ensures ReadsValue(j, m, m1, k, t) {
      StepStoresValue(j, m, m1, k, t);
    }
  }

  /** What one more step stores is the value computed from the memory before the run. */
  lemma StepStoresValue(j: Job, m: seq<byte>, m1: seq<byte>, k: nat, n: nat)
    requires Ok(j, |m|) && SafeWithin(j, Span(j.block, j.Count())) && k + n < j.Count() && Outcome(j, m, m1, k, n)
    ensures |m1| == |m| && ReadsValue(j, m, m1, k, n)
  {
    hide Done, SafeWithin, Splice, Slice, Bump, Transform, Mask, Offset, InAt, OutAt, InMemory, Counted;
    BlockFits(j, |m|, k + n);
    ValueSize(j, m, k, k + n);
    StepReads(j, m, m1, k, n);
  }

  /** A block under its own mask is the same block of zeros in every memory. */
  lemma SelfMaskedResult(j: Job, m: seq<byte>, m1: seq<byte>, k: nat, i: nat)
    requires Ok(j, |m|) && SelfMasked(j) && k <= i < j.Count() && |m1| == |m|
    ensures StepResult(j, m1, i) == Value(j, m, k, i)
  {
    BlockFits(j, |m|, i);
    var x, y := Slice(m, InAt(j, i), j.block), Slice(m1, InAt(j, i), j.block);
    XorSelf(x, y);
    hide Slice, Xor, Offset, InMemory;
  }

  lemma SelfMaskedReadsWell(j: Job, m: seq<byte>, k: nat, n: nat)
    requires Ok(j, |m|) && SelfMasked(j) && k + n <= j.Count()
    ensures ReadsWell(j, m, k, n)
  {
    hide Outcome, SelfMasked, StepResult, Value, Ok;
    forall t: nat, m1 | t < n && |m1| == |m| && Outcome(j, m, m1, k, t) ensures ReadsValue(j, m, m1, k, t) {
      SelfMaskedResult(j, m, m1, k, k + t);
    }
  }

  // ----- one block more

  lemma ThisBlockStored(j: Job, m: seq<byte>, m1: seq<byte>, k: nat, i: nat, v: seq<byte>)
    requires Ok(j, |m|) && k <= i < j.Count() && |m1| == |m|
    requires v == Value(j, m, k, i) && |v| == j.block && 0 <= OutAt(j, i) && OutAt(j, i) + j.block <= |m|
    ensures HasValue(j, m, Splice(m1, OutAt(j, i), v), k, i)
  {
    hide Value, Splice;
    SpliceInside(m1, OutAt(j, i), v);
  }

  lemma OtherBlockStays(j: Job, m: seq<byte>, m1: seq<byte>, k: nat, n: nat, v: seq<byte>, t: nat)
    requires Ok(j, |m|) && !j.flags.stationary && k + n < j.Count() && |m1| == |m| && k <= t < k + n
    requires |v| == j.block && 0 <= OutAt(j, k + n) && OutAt(j, k + n) + j.block <= |m|
    requires HasValue(j, m, m1, k, t)
    ensures HasValue(j, m, Splice(m1, OutAt(j, k + n), v), k, t)
  {
    BlockFits(j, |m|, t);
    OutputsApart(j, t, k + n);
    SpliceOutside(m1, OutAt(j, k + n), v, OutAt(j, t), j.block);
  }

  lemma ValuesGrow(j: Job, m: seq<byte>, m1: seq<byte>, m2: seq<byte>, k: nat, n: nat, v: seq<byte>)
    requires Ok(j, |m|) && !j.flags.stationary && k + n < j.Count() && |m1| == |m|
    requires v == Value(j, m, k, k + n) && |v| == j.block && 0 <= OutAt(j, k + n) && OutAt(j, k + n) + j.block <= |m|
    requires m2 == Splice(m1, OutAt(j, k + n), v)
    requires forall t :: k <= t < k + n ==> HasValue(j, m, m1, k, t)
    ensures forall t :: k <= t < k + n + 1 ==> HasValue(j, m, m2, k, t)
  {
    hide *;
    ThisBlockStored(j, m, m1, k, k + n, v);
    forall t | k <= t < k + n + 1 ensures HasValue(j, m, m2, k, t) {
      if t < k + n { OtherBlockStays(j, m, m1, k, n, v, t); }
    }
  }

  lemma RestStays(j: Job, m: seq<byte>, m1: seq<byte>, k: nat, n: nat, v: seq<byte>)
    requires Ok(j, |m|) && !j.flags.stationary && k + n < j.Count() && |m1| == |m|
    requires |v| == j.block && 0 <= OutAt(j, k + n) && OutAt(j, k + n) + j.block <= |m|
    requires forall a :: 0 <= a < |m| && !Written(j, k, n, a) && !InCounter(j, a) ==> m1[a] == m[a]
    ensures forall a :: 0 <= a < |m| && !Written(j, k, n + 1, a) && !InCounter(j, a) ==>
      Splice(m1, OutAt(j, k + n), v)[a] == m[a]
  {
    var p := OutAt(j, k + n);
    forall a | 0 <= a < |m| && !Written(j, k, n + 1, a) && !InCounter(j, a) ensures Splice(m1, p, v)[a] == m[a] {
      SpliceElsewhere(m1, p, v, a);
      assert !Written(j, k, n, a);
    }
  }

  /** Storing the next value adds a block. */
  lemma DoneGrows(j: Job, m: seq<byte>, m1: seq<byte>, k: nat, n: nat, q: nat, v: seq<byte>)
    requires Ok(j, |m|) && !j.flags.stationary && k + n < j.Count() && Done(j, m, m1, k, n, q)
    requires CounterClear(j, k + n + 1)
    requires v == Value(j, m, k, k + n) && |v| == j.block && 0 <= OutAt(j, k + n) && OutAt(j, k + n) + j.block <= |m|
    ensures |m1| == |m| && Done(j, m, Splice(m1, OutAt(j, k + n), v), k, n + 1, q)
  {
    DoneSize(j, m, m1, k, n, q);
    hide Slice, Splice, Written, InCounter, Value, HasValue, Bump, OutAt, Ok, CounterClear;
    ValuesGrow(j, m, m1, Splice(m1, OutAt(j, k + n), v), k, n, v);
    if j.flags.counter {
      CounterApart(j, |m|, k + n + 1, k + n);
      SpliceOutside(m1, OutAt(j, k + n), v, j.input, j.block);
    }
    RestStays(j, m, m1, k, n, v);
  }

  /** Counting moves the counter and keeps the blocks. */
  lemma DoneCounts(j: Job, m: seq<byte>, m1: seq<byte>, k: nat, n: nat, q: nat)
    requires Ok(j, |m|) && !j.flags.stationary && k + n <= j.Count() && Done(j, m, m1, k, n, q)
    requires CounterClear(j, k + n)
    ensures |m1| == |m| && Done(j, m, Counted(j, m1, 1), k, n, q + 1)
  {
    DoneSize(j, m, m1, k, n, q);
    if j.flags.counter {
      var m2 := Counted(j, m1, 1);
      hide Written, Value, Bump, Ok, CounterClear, Splice, Slice;
      forall i | k <= i < k + n ensures HasValue(j, m, m2, k, i) {
        assert HasValue(j, m, m1, k, i);
        CountedBlockStays(j, m, m1, k, n, i);
      }
      SpliceInside(m1, j.input, Bump(Slice(m1, j.input, j.block), 1));
      BumpBump(Slice(m, j.input, j.block), q, 1);
      forall a | 0 <= a < |m| && !Written(j, k, n, a) && !InCounter(j, a) ensures m2[a] == m[a] {
        CountedElsewhere(j, m1, 1, a);
      }
    }
  }

  lemma CountedBlockStays(j: Job, m: seq<byte>, m1: seq<byte>, k: nat, n: nat, i: nat)
    requires Ok(j, |m|) && !j.flags.stationary && k <= i < k + n <= j.Count() && |m1| == |m| && j.flags.counter
    requires CounterClear(j, k + n) && 0 < j.block && j.input + j.block <= |m| && HasValue(j, m, m1, k, i)
    ensures HasValue(j, m, Counted(j, m1, 1), k, i)
  {
    BlockFits(j, |m|, i);
    CounterApart(j, |m|, k + n, i);
    SpliceOutside(m1, j.input, Bump(Slice(m1, j.input, j.block), 1), OutAt(j, i), j.block);
  }

  // ----- the serial loop

  /** One block at a time, each block is written once with its value, if every step finds what it needs. */
  lemma {:induction false} SerialDone(j: Job, m: seq<byte>, k: nat, n: nat)
    requires Ok(j, |m|) && !j.flags.stationary && k + n <= j.Count()
    requires CounterClear(j, k + n) && ReadsWell(j, m, k, n)
    ensures Outcome(j, m, SerialRun(j, m, k, n), k, n)
  {
    hide *;
    if n == 0 {
      SerialRunNone(j, m, k);
      NothingHappened(j, m, k);
    } else {
      ReadsWellPrefix(j, m, k, n);
      SerialDone(j, m, k, n - 1);
      SerialRunLast(j, m, k, n);
      StepIsDone(j, m, SerialRun(j, m, k, n - 1), k, n - 1, k + n - 1, n);
    }
  }

  lemma ReadsWellPrefix(j: Job, m: seq<byte>, k: nat, n: nat)
    requires Ok(j, |m|) && k + n <= j.Count() && n > 0 && ReadsWell(j, m, k, n) && CounterClear(j, k + n)
    ensures ReadsWell(j, m, k, n - 1) && CounterClear(j, k + (n - 1))
    ensures forall m1 :: |m1| == |m| && Outcome(j, m, m1, k, n - 1) ==> ReadsValue(j, m, m1, k, n - 1)
  {
    hide Outcome, ReadsValue;
  }

  /** A step that finds what it needs stores the value of its block i = k + n. */
  lemma StepStores(j: Job, m: seq<byte>, m1: seq<byte>, k: nat, n: nat, i: nat)
    requires Ok(j, |m|) && i == k + n < j.Count() && |m1| == |m| && ReadsValue(j, m, m1, k, n)
    ensures |Value(j, m, k, i)| == j.block && 0 <= OutAt(j, i) && OutAt(j, i) + j.block <= |m|
    ensures j.flags.counter ==> 0 < j.block && j.input + j.block <= |m|
    ensures Step(j, m1, i) == Splice(Counted(j, m1, 1), OutAt(j, i), Value(j, m, k, i))
  {
    StepIsSplice(j, m1, i);
    hide StepResult, Step, Value, OutAt, Splice, Counted, Ok, Job.Count;
  }

  /** A step that finds what it needs extends the outcome by one block. */
  lemma StepIsDone(j: Job, m: seq<byte>, m1: seq<byte>, k: nat, n: nat, i: nat, next: nat)
    requires Ok(j, |m|) && !j.flags.stationary && i == k + n < j.Count() && next == n + 1
    requires |m1| == |m| && Outcome(j, m, m1, k, n)
    requires CounterClear(j, k + next) && CounterClear(j, i) && ReadsValue(j, m, m1, k, n)
    ensures Outcome(j, m, Step(j, m1, i), k, next)
  {
    hide *;
    StepStores(j, m, m1, k, n, i);
    OutcomeIsDone(j, m, m1, k, n);
    DoneCounts(j, m, m1, k, n, n);
    DoneGrows(j, m, Counted(j, m1, 1), k, n, next, Value(j, m, k, i));
    OutcomeIsDone(j, m, Step(j, m1, i), k, next);
  }

  lemma StepIsSplice(j: Job, m: seq<byte>, k: nat)
    requires Ok(j, |m|) && k < j.Count()
    ensures 0 <= OutAt(j, k) && OutAt(j, k) + j.block <= |m| && |StepResult(j, m, k)| == j.block
    ensures j.flags.counter ==> 0 < j.block && j.input + j.block <= |m|
    ensures Step(j, m, k) == Splice(Counted(j, m, 1), OutAt(j, k), StepResult(j, m, k))
  {
    BlockFits(j, |m|, k);
  }

  lemma SelfMaskedOutcome(j: Job, m: seq<byte>, k: nat, n: nat)
    requires Ok(j, |m|) && SelfMasked(j) && k + n <= j.Count()
    ensures Outcome(j, m, SerialRun(j, m, k, n), k, n)
  {
    hide Ok, SerialRun, Outcome, ReadsWell;
    SelfMaskedReadsWell(j, m, k, n);
    SerialDone(j, m, k, n);
  }

  /** In a safe layout each block is written once, with the value of the memory before the run. */
  lemma SerialOutcome(j: Job, m: seq<byte>, k: nat, n: nat)
    requires Ok(j, |m|) && SafeWithin(j, Span(j.block, j.Count())) && k + n <= j.Count() && CounterClear(j, k + n)
    ensures Outcome(j, m, SerialRun(j, m, k, n), k, n)
  {
    hide Ok, SerialRun, Outcome, CounterClear, ReadsWell, Ahead, MaskMissesTop;
    SafeReadsWell(j, m, k, n);
    SerialDone(j, m, k, n);
  }

  lemma SerialRunNone(j: Job, m: seq<byte>, k: nat)
    requires Ok(j, |m|) && k <= j.Count()
    ensures SerialRun(j, m, k, 0) == m
  {}

  lemma SerialRunLast(j: Job, m: seq<byte>, k: nat, n: nat)
    requires Ok(j, |m|) && k + n <= j.Count() && n > 0
    ensures SerialRun(j, m, k, n) == Step(j, SerialRun(j, m, k, n - 1), k + n - 1)
  {}

  lemma NothingHappened(j: Job, m: seq<byte>, k: nat)
    requires Ok(j, |m|) && k <= j.Count()
    ensures Outcome(j, m, m, k, 0)
  {
    if j.flags.counter { BumpZero(Slice(m, j.input, j.block)); }
  }

  // ----- what a run touches

  lemma StepTouches(j: Job, m: seq<byte>, k: nat, a: int)
    requires Ok(j, |m|) && k < j.Count() && 0 <= a < |m| && !InCounter(j, a)
    requires !(OutAt(j, k) <= a < OutAt(j, k) + j.block)
    ensures Step(j, m, k)[a] == m[a]
  {
    StepIsSplice(j, m, k);
    CountedElsewhere(j, m, 1, a);
    SpliceElsewhere(Counted(j, m, 1), OutAt(j, k), StepResult(j, m, k), a);
  }

  /** Blocks k to k+n-1 touch nothing but their own output and the octet that counts. */
  lemma {:induction false} RunTouches(j: Job, m: seq<byte>, k: nat, n: nat, a: int)
    requires Ok(j, |m|) && !j.flags.stationary && k + n <= j.Count()
    requires 0 <= a < |m| && !Written(j, k, n, a) && !InCounter(j, a)
    ensures SerialRun(j, m, k, n)[a] == m[a]
  {
    hide *;
    if n == 0 {
      SerialRunNone(j, m, k);
    } else {
      NotWritten(j, |m|, k, n, a);
      RunTouches(j, m, k, n - 1, a);
      SerialRunLast(j, m, k, n);
      StepTouches(j, SerialRun(j, m, k, n - 1), k + n - 1, a);
    }
  }

  lemma NotWritten(j: Job, size: nat, k: nat, n: nat, a: int)
    requires Ok(j, size) && !j.flags.stationary && 0 < n && k + n <= j.Count() && !Written(j, k, n, a)
    ensures !Written(j, k, n - 1, a) && !(OutAt(j, k + n - 1) <= a < OutAt(j, k + n - 1) + j.block)
  {}

  /** What is not written by the rest of a run is there in the end. */
  lemma RestKeeps(j: Job, m: seq<byte>, k: nat, n: nat, whole: nat, from: nat, a: nat)
    requires Ok(j, |m|) && !j.flags.stationary && n <= whole && k + whole <= j.Count() && a < |m|
    requires from == k + n && !Written(j, from, whole - n, a) && !InCounter(j, a)
    ensures SerialRun(j, m, k, n)[a] == SerialRun(j, m, k, whole)[a]
  {
    hide *;
    var rest: nat := whole - n;
    WholeSplits(j, m, k, n, rest, whole, from);
    RunTouches(j, SerialRun(j, m, k, n), from, rest, a);
  }

  lemma WholeSplits(j: Job, m: seq<byte>, k: nat, n: nat, rest: nat, whole: nat, from: nat)
    requires Ok(j, |m|) && whole == n + rest && from == k + n && k + whole <= j.Count()
    ensures SerialRun(j, SerialRun(j, m, k, n), from, rest) == SerialRun(j, m, k, whole)
  {
    hide *;
    SerialRunSplit(j, m, k, n, rest);
  }

  /** The octets of a block are written with it, not with later ones. */
  lemma BlockIsWritten(j: Job, size: nat, i: nat, k: nat, n: nat, a: int)
    requires Ok(j, size) && !j.flags.stationary && i < k && k + n <= j.Count()
    requires OutAt(j, i) <= a < OutAt(j, i) + j.block
    ensures Written(j, 0, k, a) && !Written(j, k, n, a) && 0 <= a < size
  {}
}
